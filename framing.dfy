/** Packet framing of the GDB Remote Serial Protocol: the frame the server
    writes around a reply, and what the server makes of the bytes it reads
    while it waits for a command. */
module Framing {
  import opened Wire
  import opened Commands

  /** `$payload#hh`, where `hh` is the checksum of the payload in lower-case
      hexadecimal. */
  function Frame(p: Bytes): Bytes
  {
    "$" + p + "#" + Hex2(Checksum(p))
  }

  /** `gdb_send`: the frame of a payload that fits the send buffer; a longer
      payload overruns the buffer and panics before anything is written. */
  function Sent(p: Bytes): (r: Result<Bytes>)
    ensures r.Ok? <==> |p| <= MaxPayload
    ensures r.Err? ==> r.error == Panic
  {
    if |p| > MaxPayload then Err(Panic) else Ok(Frame(p))
  }

  /** A frame is four bytes longer than its payload, carries the payload
      between `$` and `#`, and ends with two lower-case digits that denote
      the byte sum of the payload modulo 256. */
  lemma FrameShape(p: Bytes)
    ensures var f := Frame(p);
      && |f| == |p| + 4
      && f[0] == '$' && f[1..|p| + 1] == p && f[|p| + 1] == '#'
      && AllHex(f[|p| + 2..]) && HexValue(f[|p| + 2..]) == Sum(p) % 0x100
      && !('A' <= f[|p| + 2] <= 'F') && !('A' <= f[|p| + 3] <= 'F')
  {
    var f := Frame(p);
    assert f[|p| + 2..] == Hex2(Checksum(p));
    assert f[1..|p| + 1] == p;
    HexValueAppend2([], Checksum(p));
    assert [] + Hex2(Checksum(p)) == Hex2(Checksum(p));
    ChecksumIsSumMod256(p);
  }

  /** How a wait for a command ends. */
  datatype Event =
    | Closed                                  // the input ran out
    | Overrun                                 // a payload longer than the buffer
    | Interrupted                             // a bare 0x03 before any `$`
    | Framed(payload: Bytes, remote: Bytes)   // a payload and the two checksum bytes read after `#`

  /** An event together with the input left after it. */
  datatype Scan = Scan(event: Event, rest: Bytes)

  const Ctrl: Byte := 3 as char

  /** The two-byte buffer into which the checksum is read: as many of the
      next bytes as there are, up to two, and zero bytes for the rest. */
  function RemoteDigits(s: Bytes): (r: Bytes)
    ensures |r| == 2
    ensures |s| >= 2 ==> r == s[..2]
  {
    if |s| >= 2 then s[..2]
    else if |s| == 1 then [s[0], 0 as char]
    else [0 as char, 0 as char]
  }

  /** The outer loop of `get_command`: before a `$`, a 0x03 is an interrupt
      and every other byte (`+`, `-` or anything else) is skipped. */
  function AwaitStart(inp: Bytes): Scan
    decreases |inp|
  {
    if |inp| == 0 then Scan(Closed, [])
    else if inp[0] == '$' then Collect(inp[1..], [])
    else if inp[0] == Ctrl then Scan(Interrupted, inp[1..])
    else AwaitStart(inp[1..])
  }

  /** The inner loop of `get_command`: every byte up to `#` joins the payload,
      `$` and 0x03 included; a byte that finds the buffer full is an overrun. */
  function Collect(inp: Bytes, acc: Bytes): Scan
    decreases |inp|
  {
    if |inp| == 0 then Scan(Closed, [])
    else if inp[0] == '#' then
      var n := if |inp| - 1 < 2 then |inp| - 1 else 2;
      Scan(Framed(acc, RemoteDigits(inp[1..])), inp[1 + n..])
    else if |acc| >= MaxPayload then Scan(Overrun, inp[1..])
    else Collect(inp[1..], acc + [inp[0]])
  }

  /** The acknowledgement written for a received payload: `-` when the two
      checksum bytes differ from the lower-case rendering of the checksum,
      otherwise `+` unless no-ack mode is on. */
  function Ack(p: Bytes, remote: Bytes, noAck: bool): (r: Bytes)
    ensures r == "+" <==> remote == Hex2(Checksum(p)) && !noAck
    ensures r == "-" <==> remote != Hex2(Checksum(p))
    ensures r == [] <==> remote == Hex2(Checksum(p)) && noAck
  {
    if remote != Hex2(Checksum(p)) then "-"
    else if noAck then []
    else "+"
  }

  /** The outcome of one `get_command` on an input: the command or error, the
      bytes written back and the input left over. */
  datatype Reception = Reception(result: Result<GdbCommand>, written: Bytes, rest: Bytes)

  /** `get_command` on an input: wait for a packet or an interrupt, then
      acknowledge and parse the packet. */
  function Receive(inp: Bytes, noAck: bool): Reception
  {
    Conclude(AwaitStart(inp), noAck)
  }

  /** What a wait that ended in `s` returns and writes. */
  function Conclude(s: Scan, noAck: bool): Reception
  {
    match s.event
    case Closed => Reception(Err(ConnectionClosed), [], s.rest)
    case Overrun => Reception(Err(Panic), [], s.rest)
    case Interrupted => Reception(Ok(Interrupt), [], s.rest)
    case Framed(p, remote) => Reception(PacketToCommand(p), Ack(p, remote, noAck), s.rest)
  }

  /** One step of the inner loop, with the checksum bytes taken off the
      input after `#`. */
  lemma CollectNext(inp: Bytes, acc: Bytes)
    requires |inp| > 0
    ensures Collect(inp, acc) ==
      if inp[0] == '#' then Scan(Framed(acc, RemoteDigits(inp[1..])), inp[1..][Min(2, |inp| - 1)..])
      else if |acc| >= MaxPayload then Scan(Overrun, inp[1..])
      else Collect(inp[1..], acc + [inp[0]])
  {
    assert inp[1..][Min(2, |inp| - 1)..] == inp[1 + Min(2, |inp| - 1)..];
  }

  /** A packet never ends in an interrupt: once `$` is seen, 0x03 is payload. */
  lemma {:induction false} CollectEvents(inp: Bytes, acc: Bytes)
    ensures !Collect(inp, acc).event.Interrupted?
    decreases |inp|
  {
    if |inp| > 0 && inp[0] != '#' && |acc| < MaxPayload {
      CollectEvents(inp[1..], acc + [inp[0]]);
    }
  }

  /** Bytes other than `#` join the payload one by one while it fits. */
  lemma {:induction false} CollectPayload(p: Bytes, acc: Bytes, tail: Bytes)
    requires '#' !in p && |acc| + |p| <= MaxPayload
    ensures Collect(p + tail, acc) == Collect(tail, acc + p)
    decreases |p|
  {
    if |p| == 0 {
      assert p + tail == tail && acc + p == acc;
    } else {
      assert (p + tail)[0] == p[0] && (p + tail)[1..] == p[1..] + tail;
      CollectPayload(p[1..], acc + [p[0]], tail);
      assert acc + [p[0]] + p[1..] == acc + p;
    }
  }

  /** A `#` followed by two bytes ends the payload with those two bytes as the
      remote checksum. */
  lemma CollectEnd(acc: Bytes, c: Bytes, rest: Bytes)
    requires |c| == 2
    ensures Collect("#" + c + rest, acc) == Scan(Framed(acc, c), rest)
  {
    var inp := "#" + c + rest;
    assert inp[1..] == c + rest && (c + rest)[..2] == c;
    assert inp[3..] == rest;
  }

  /** Bytes that are neither `$` nor 0x03 are skipped while waiting. */
  lemma {:induction false} SkipNoise(noise: Bytes, inp: Bytes)
    requires '$' !in noise && Ctrl !in noise
    ensures AwaitStart(noise + inp) == AwaitStart(inp)
    decreases |noise|
  {
    if |noise| > 0 {
      assert (noise + inp)[1..] == noise[1..] + inp;
      SkipNoise(noise[1..], inp);
    } else {
      assert noise + inp == inp;
    }
  }

  /** After any noise, a bare 0x03 is an interrupt. */
  lemma InterruptAfterNoise(noise: Bytes, rest: Bytes)
    requires '$' !in noise && Ctrl !in noise
    ensures Receive(noise + [Ctrl] + rest, false) == Reception(Ok(Interrupt), [], rest)
    ensures Receive(noise + [Ctrl] + rest, true) == Reception(Ok(Interrupt), [], rest)
  {
    assert noise + [Ctrl] + rest == noise + ([Ctrl] + rest);
    SkipNoise(noise, [Ctrl] + rest);
    assert ([Ctrl] + rest)[1..] == rest;
  }

  /** A packet with any two checksum bytes: the payload is parsed whether or not
      they match; `+` is written exactly when they match and no-ack mode is
      off, `-` exactly when they do not match. */
  lemma ReceivePacket(p: Bytes, c: Bytes, rest: Bytes, noAck: bool)
    requires '#' !in p && |p| <= MaxPayload && |c| == 2
    ensures var r := Receive("$" + p + "#" + c + rest, noAck);
      && r.result == PacketToCommand(p)
      && r.rest == rest
      && (r.written == "+" <==> c == Hex2(Checksum(p)) && !noAck)
      && (r.written == "-" <==> c != Hex2(Checksum(p)))
      && (r.written == [] <==> c == Hex2(Checksum(p)) && noAck)
  {
    ReceiveParts(p, c, rest, noAck);
  }

  lemma ReceiveParts(p: Bytes, c: Bytes, rest: Bytes, noAck: bool)
    requires '#' !in p && |p| <= MaxPayload && |c| == 2
    ensures Receive("$" + p + "#" + c + rest, noAck) == Reception(PacketToCommand(p), Ack(p, c, noAck), rest)
  {
    AwaitFrame(p, c, rest);
  }

  /** A whole packet ends the wait with its payload and checksum bytes. */
  lemma AwaitFrame(p: Bytes, c: Bytes, rest: Bytes)
    requires '#' !in p && |p| <= MaxPayload && |c| == 2
    ensures AwaitStart("$" + p + "#" + c + rest) == Scan(Framed(p, c), rest)
  {
    var tail := "#" + c + rest;
    assert "$" + p + "#" + c + rest == "$" + p + tail;
    AwaitPacket(p, tail);
    CollectEnd(p, c, rest);
  }

  /** After `$`, a payload without `#` is collected whole. */
  lemma AwaitPacket(p: Bytes, tail: Bytes)
    requires '#' !in p && |p| <= MaxPayload
    ensures AwaitStart("$" + p + tail) == Collect(tail, p)
  {
    var inp := "$" + p + tail;
    assert inp[1..] == p + tail;
    CollectPayload(p, [], tail);
    assert [] + p == p;
  }

  /** What the server frames, the server reads back: the payload, with a
      matching checksum and so a positive (or no) acknowledgement. */
  lemma ReceiveFrame(p: Bytes, rest: Bytes, noAck: bool)
    requires '#' !in p && |p| <= MaxPayload
    ensures Receive(Frame(p) + rest, noAck) ==
      Reception(PacketToCommand(p), if noAck then [] else "+", rest)
  {
    assert Frame(p) + rest == "$" + p + "#" + Hex2(Checksum(p)) + rest;
    ReceivePacket(p, Hex2(Checksum(p)), rest, noAck);
  }

  /** A payload byte that finds all 16384 places of the buffer taken is an
      overrun, even when a `#` follows later. */
  lemma OverrunAfterFullBuffer(p: Bytes, b: Byte, rest: Bytes)
    requires '#' !in p && |p| == MaxPayload && b != '#'
    ensures AwaitStart("$" + p + [b] + rest).event == Overrun
  {
    var inp := "$" + p + [b] + rest;
    assert inp[1..] == p + ([b] + rest);
    CollectPayload(p, [], [b] + rest);
    assert [] + p == p;
  }
}
