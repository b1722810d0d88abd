/** The GDB server object of one connection.  The connection is two byte
    strings: `inbox`, the bytes the client has sent that the server has not
    read yet, and `outbox`, everything the server has written so far.  The
    methods follow the source loop by loop and are proved against the
    functions of `Framing`, `Transfer` and `Dispatch`. */
module Server {
  import opened Wire
  import opened Commands
  import opened Framing
  import opened Transfer
  import opened Target
  import opened Dispatch

  /** The status `process` returns for an outcome: the error that stopped it,
      a panic when the reply overruns the send buffer, success otherwise. */
  function Status(o: Outcome): (r: Result<()>)
    ensures o.result.Err? ==> r == Err(o.result.error)
    ensures o.result.Ok? ==> (r.Err? <==> Replies(o) && |o.result.value.value| > MaxPayload)
    ensures r.Err? && o.result.Ok? ==> r.error == Panic
  {
    match o.result
    case Err(e) => Err(e)
    case Ok(None) => Ok(())
    case Ok(Some(p)) => if |p| <= MaxPayload then Ok(()) else Err(Panic)
  }

  /** The bytes `process` writes for an outcome: the frame of its reply, when
      there is one and it fits the send buffer. */
  function Written(o: Outcome): (w: Bytes)
    ensures Status(o).Ok? && Replies(o) ==> w == Frame(o.result.value.value)
    ensures Status(o).Err? || !Replies(o) ==> w == []
  {
    if Replies(o) && |o.result.value.value| <= MaxPayload then Frame(o.result.value.value) else []
  }

  lemma RegistersSnoc(i: nat)
    requires i < U32Bound
    ensures RegisterReply(i + 1) == RegisterReply(i) + Hex8(i)
  {
    var blocks := RegisterBlocks(i + 1);
    assert blocks[..i] == RegisterBlocks(i);
    assert Concat(blocks) == Concat(blocks[..i]) + blocks[i];
  }

  lemma WordsHexStep(ws: seq<u32>, k: nat)
    requires k < |ws|
    ensures WordsHex(ws[..k + 1]) == WordsHex(ws[..k]) + Hex8(ByteSwap(ws[k]))
  {
    var blocks := WordBlocks(ws[..k + 1]);
    assert blocks[..k] == WordBlocks(ws[..k]);
    assert Concat(blocks) == Concat(blocks[..k]) + blocks[k];
  }

  /** The register list of the `g` reply, built number by number. */
  method RegisterList() returns (list: Bytes)
    ensures list == RegisterReply(33)
  {
    list := [];
    for i := 0 to 33
      invariant list == RegisterReply(i)
    {
      RegistersSnoc(i);
      list := list + Hex8(i);
    }
  }

  /** `BigEndian::write_u32`: the bytes of a word, most significant first. */
  function WriteBigEndian(w: u32): (buf: seq<u8>)
    ensures |buf| == 4
  {
    [ByteOf(w, 3), ByteOf(w, 2), ByteOf(w, 1), ByteOf(w, 0)]
  }

  /** `NativeEndian::read_u32` on a little-endian host: the first byte is
      the least significant one. */
  function ReadLittleEndian(buf: seq<u8>): u32
    requires |buf| == 4
  {
    buf[0] as int + 0x100 * buf[1] as int + 0x1_0000 * buf[2] as int + 0x100_0000 * buf[3] as int
  }

  /** A word written big-endian and read back little-endian has its bytes
      swapped. */
  lemma NativeRead(val: u32)
    ensures ReadLittleEndian(WriteBigEndian(val)) == ByteSwap(val)
  {
  }

  /** The text of `gdb_send_u32`: each word is written big-endian into a
      four-byte buffer, read back in the host's order (little-endian) and
      rendered as eight hex digits. */
  method WordList(vals: seq<u32>) returns (out: Bytes)
    ensures out == WordsHex(vals)
  {
    out := [];
    for k := 0 to |vals|
      invariant out == WordsHex(vals[..k])
    {
      var val := vals[k];
      var buf := WriteBigEndian(val);
      var native := ReadLittleEndian(buf);
      NativeRead(val);
      WordsHexStep(vals, k);
      out := out + Hex8(native);
    }
    assert vals[..|vals|] == vals;
  }

  /** The word at `addr + offset` for every `offset` stepping by 4 below
      `len`, read from the CPU one by one; the first failure ends the loop. */
  method ReadMemoryValues(cpu: Cpu, addr: u32, len: u32) returns (r: Result<seq<u32>>)
    modifies cpu
    ensures Reads(r, cpu.calls) == ReadWords(cpu.answer, old(cpu.calls), addr, len, 0, [])
  {
    var values: seq<u32> := [];
    var offset: nat := 0;
    while offset < len
      invariant ReadWords(cpu.answer, cpu.calls, addr, len, offset, values)
        == ReadWords(cpu.answer, old(cpu.calls), addr, len, 0, [])
      decreases len - offset
    {
      if addr + offset >= U32Bound {
        return Err(Panic);
      }
      var v := cpu.ReadMemory(addr + offset);
      if v.Err? {
        return Err(v.error);
      }
      values := values + [v.value];
      offset := offset + 4;
    }
    r := Ok(values);
  }

  /** The buffer of `gdb_send`: `$`, the payload copied byte by byte while
      its checksum is summed with wrap-around, `#` and the two checksum
      digits, in a 16388-byte array; a payload longer than 16384 bytes runs
      past its end. */
  method BuildFrame(inp: Bytes) returns (r: Result<Bytes>)
    ensures r == Sent(inp)
  {
    var buffer := new Byte[MaxPayload + 4](_ => 0 as char);
    var checksum: u8 := 0;
    buffer[0] := '$';
    for i := 0 to |inp|
      invariant i + 1 <= buffer.Length
      invariant buffer[0] == '$'
      invariant forall j :: 0 <= j < i ==> buffer[j + 1] == inp[j]
      invariant checksum == Checksum(inp[..i])
    {
      if i + 1 >= buffer.Length {
        return Err(Panic);
      }
      buffer[i + 1] := inp[i];
      ChecksumStep(inp, i);
      checksum := (checksum + inp[i] as int) % 0x100;
    }
    if |inp| + 3 >= buffer.Length {
      return Err(Panic);
    }
    var digits := Hex2(checksum);
    buffer[|inp| + 1] := '#';
    buffer[|inp| + 2] := digits[0];
    buffer[|inp| + 3] := digits[1];
    assert inp[..|inp|] == inp;
    FrameAt(inp, buffer[..|inp| + 4]);
    r := Ok(buffer[..|inp| + 4]);
  }

  lemma ChecksumStep(inp: Bytes, i: nat)
    requires i < |inp|
    ensures Checksum(inp[..i + 1]) == (Checksum(inp[..i]) + inp[i] as int) % 0x100
  {
    assert inp[..i + 1] == inp[..i] + [inp[i]];
    ChecksumSnoc(inp[..i], inp[i]);
  }

  /** A buffer that holds `$`, the payload, `#` and the checksum digits, place
      by place, is the frame of the payload. */
  lemma FrameAt(inp: Bytes, f: Bytes)
    requires |f| == |inp| + 4 && f[0] == '$' && f[|inp| + 1] == '#'
    requires forall j :: 0 <= j < |inp| ==> f[j + 1] == inp[j]
    requires f[|inp| + 2..] == Hex2(Checksum(inp))
    ensures f == Frame(inp)
  {
    var g := Frame(inp);
    assert g[|inp| + 2..] == Hex2(Checksum(inp));
    forall j | 0 <= j < |f|
      ensures f[j] == g[j]
    {
      if 1 <= j <= |inp| {
        assert f[j] == inp[j - 1];
      } else if j >= |inp| + 2 {
        assert f[j] == f[|inp| + 2..][j - |inp| - 2];
      }
    }
  }

  class GdbServer {
    var inbox: Bytes
    var outbox: Bytes
    var noAckMode: bool
    var isAlive: bool
    var lastSignal: u8

    /** A fresh connection on which the client will send `input`. */
    constructor(input: Bytes)
      ensures inbox == input && outbox == [] && State() == Initial
    {
      inbox := input;
      outbox := [];
      noAckMode := false;
      isAlive := true;
      lastSignal := 0;
    }

    function State(): Session
      reads this
    {
      Session(noAckMode, isAlive, lastSignal)
    }

    /** A one-byte read: `None` once the client has nothing more to send. */
    method ReadByte() returns (b: Option<Byte>)
      modifies this
      ensures |old(inbox)| == 0 ==> b == None && inbox == old(inbox)
      ensures |old(inbox)| > 0 ==> b == Some(old(inbox)[0]) && inbox == old(inbox)[1..]
      ensures outbox == old(outbox) && State() == old(State())
    {
      if |inbox| == 0 {
        return None;
      }
      b := Some(inbox[0]);
      inbox := inbox[1..];
    }

    /** The read of the two checksum bytes into a zeroed two-byte buffer. */
    method ReadChecksum() returns (remote: Bytes)
      modifies this
      ensures remote == RemoteDigits(old(inbox))
      ensures inbox == old(inbox)[Min(2, |old(inbox)|)..]
      ensures outbox == old(outbox) && State() == old(State())
    {
      var buf := new Byte[2](_ => 0 as char);
      var n := Min(2, |inbox|);
      if n >= 1 {
        buf[0] := inbox[0];
      }
      if n >= 2 {
        buf[1] := inbox[1];
      }
      inbox := inbox[n..];
      remote := buf[..];
    }

    method SendAck()
      modifies this
      ensures outbox == old(outbox) + "+"
      ensures inbox == old(inbox) && State() == old(State())
    {
      outbox := outbox + "+";
    }

    method SendNak()
      modifies this
      ensures outbox == old(outbox) + "-"
      ensures inbox == old(inbox) && State() == old(State())
    {
      outbox := outbox + "-";
    }

    /** `gdb_send`: the frame is built and written in one piece; a payload
        that does not fit the buffer panics before anything is written. */
    method Send(inp: Bytes) returns (r: Result<()>)
      modifies this
      ensures r == (if |inp| <= MaxPayload then Ok(()) else Err(Panic))
      ensures outbox == old(outbox) + (if r.Ok? then Frame(inp) else [])
      ensures inbox == old(inbox) && State() == old(State())
    {
      var frame := BuildFrame(inp);
      if frame.Err? {
        return Err(frame.error);
      }
      outbox := outbox + frame.value;
      r := Ok(());
    }

    /** `gdb_send_u32`: the words as `WordList` renders them, in one frame. */
    method SendU32(vals: seq<u32>) returns (r: Result<()>)
      modifies this
      ensures r == (if |WordsHex(vals)| <= MaxPayload then Ok(()) else Err(Panic))
      ensures outbox == old(outbox) + (if r.Ok? then Frame(WordsHex(vals)) else [])
      ensures inbox == old(inbox) && State() == old(State())
    {
      var out := WordList(vals);
      r := Send(out);
    }

    /** `gdb_send_file`: the requested window of a document, marked `m` when
        the whole length was available and `l` otherwise. */
    method SendFile(data: Bytes, offset: u32, len: u32) returns (r: Result<()>)
      modifies this
      ensures var w := Window(data, offset, len);
        && r == (if |w| <= MaxPayload then Ok(()) else Err(Panic))
        && outbox == old(outbox) + (if r.Ok? then Frame(w) else [])
      ensures inbox == old(inbox) && State() == old(State())
    {
      var end := offset + len;
      if offset > |data| {
        r := Send("l");
      } else {
        if end > |data| {
          end := |data|;
        }
        var trimmed := data[offset..end];
        if |trimmed| >= len {
          trimmed := "m" + trimmed;
        } else {
          trimmed := "l" + trimmed;
        }
        r := Send(trimmed);
      }
    }

    /** `get_command`: skip to a `$` (a bare 0x03 is an interrupt), then
        read the packet. */
    method GetCommand() returns (r: Result<GdbCommand>)
      modifies this
      ensures var rc := Receive(old(inbox), old(noAckMode));
        r == rc.result && outbox == old(outbox) + rc.written && inbox == rc.rest
      ensures State() == old(State())
    {
      while true
        invariant AwaitStart(inbox) == AwaitStart(old(inbox))
        invariant outbox == old(outbox) && State() == old(State())
        decreases |inbox|
      {
        var b := ReadByte();
        if b.None? {
          return Err(ConnectionClosed);
        }
        if b.value == '$' {
          var e := ReadPacket();
          if e.Framed? {
            r := PacketToCommand(e.payload);
          } else if e.Closed? {
            r := Err(ConnectionClosed);
          } else {
            r := Err(Panic);
          }
          return;
        } else if b.value == Ctrl {
          return Ok(Interrupt);
        }
        // `+`, `-` and every other byte before a `$` are skipped
      }
    }

    /** The inner loop of `get_command`: collect the payload up to `#` in a
        16384-byte buffer while summing it, then acknowledge it; a byte that
        finds the buffer full panics. */
    method ReadPacket() returns (e: Event)
      modifies this
      ensures var sc := Collect(old(inbox), []);
        && e == sc.event && !e.Interrupted? && inbox == sc.rest
        && outbox == old(outbox) + (if e.Framed? then Ack(e.payload, e.remote, noAckMode) else [])
      ensures State() == old(State())
    {
      CollectEvents(old(inbox), []);
      var buffer := new Byte[MaxPayload](_ => 0 as char);
      var offset := 0;
      var checksum: u8 := 0;
      ghost var payload: Bytes := [];
      while true
        invariant 0 <= offset <= buffer.Length && |payload| == offset
        invariant forall j :: 0 <= j < offset ==> buffer[j] == payload[j]
        invariant Collect(inbox, payload) == Collect(old(inbox), [])
        invariant checksum == Checksum(payload)
        invariant outbox == old(outbox) && State() == old(State())
        decreases |inbox|
      {
        ghost var before := inbox;
        var c := ReadByte();
        if c.None? {
          return Closed;
        }
        CollectNext(before, payload);
        if c.value == '#' {
          assert buffer[..offset] == payload;
          var remote := Acknowledge(buffer[..offset], checksum);
          return Framed(buffer[..offset], remote);
        }
        if offset >= buffer.Length {
          return Overrun;
        }
        buffer[offset] := c.value;
        offset := offset + 1;
        ChecksumSnoc(payload, c.value);
        checksum := (checksum + c.value as int) % 0x100;
        payload := payload + [c.value];
      }
    }

    /** After `#`: read the two checksum bytes and answer `-` when they are
        not the lower-case digits of the checksum, `+` when they are (unless
        no-ack mode is on). */
    method Acknowledge(payload: Bytes, checksum: u8) returns (remote: Bytes)
      requires checksum == Checksum(payload)
      modifies this
      ensures remote == RemoteDigits(old(inbox))
      ensures outbox == old(outbox) + Ack(payload, remote, noAckMode)
      ensures inbox == old(inbox)[Min(2, |old(inbox)|)..]
      ensures State() == old(State())
    {
      remote := ReadChecksum();
      if Hex2(checksum) != remote {
        SendNak();
      } else if !noAckMode {
        SendAck();
      }
    }

    /** `process`: read a command, then carry it out. */
    method Process(cpu: Cpu) returns (r: Result<()>)
      modifies this, cpu
      ensures var rc := Receive(old(inbox), old(noAckMode));
        && inbox == rc.rest
        && (rc.result.Err? ==>
              && r == Err(rc.result.error) && outbox == old(outbox) + rc.written
              && State() == old(State()) && cpu.calls == old(cpu.calls))
        && (rc.result.Ok? ==>
              var o := Respond(rc.result.value, old(State()), cpu.answer, old(cpu.calls));
              && r == Status(o) && outbox == old(outbox) + rc.written + Written(o)
              && State() == o.session && cpu.calls == o.calls)
    {
      var cmd := GetCommand();
      if cmd.Err? {
        return Err(cmd.error);
      }
      r := Execute(cmd.value, cpu);
    }

    /** The body of `process` once the command is known. */
    method Execute(cmd: GdbCommand, cpu: Cpu) returns (r: Result<()>)
      modifies this, cpu
      ensures var o := Respond(cmd, old(State()), cpu.answer, old(cpu.calls));
        && r == Status(o) && outbox == old(outbox) + Written(o)
        && State() == o.session && cpu.calls == o.calls && inbox == old(inbox)
    {
      RespondReads(cmd, State(), cpu.answer, cpu.calls);
      RespondControls(cmd, State(), cpu.answer, cpu.calls);
      RespondSays(cmd, State(), cpu.answer, cpu.calls);
      if cmd.ReadMemory? {
        r := Inspect(cmd.addr, cmd.length, cpu);
      } else if cmd.ReadFeature? {
        r := Serve(FeatureCall(cmd.filename), cmd.offset, cmd.len, cpu);
      } else if cmd.ReadThreads? {
        r := Serve(ThreadsCall, cmd.offset, cmd.len, cpu);
      } else if Silent(cmd) {
        r := Run(if cmd.Step? then StepCall else ResumeCall, false, cpu);
      } else if cmd.VContStepFromSignal? {
        r := Run(StepCall, true, cpu);
      } else if cmd.Interrupt? {
        lastSignal := 2;
        r := Run(HaltCall, true, cpu);
      } else {
        r := Answer(cmd);
      }
    }

    /** The arms that only reply: the register list is built by its loop,
        every other text is fixed by the command and the session. */
    method Answer(cmd: GdbCommand) returns (r: Result<()>)
      requires !UsesCpu(cmd)
      modifies this
      ensures var s := old(State());
        var o := Say(if cmd.StartNoAckMode? then s.(noAckMode := true) else s, [], Reply(cmd, s));
        && r == Status(o) && outbox == old(outbox) + Written(o)
        && State() == o.session && inbox == old(inbox)
    {
      var reply := Reply(cmd, State());
      if cmd.StartNoAckMode? {
        noAckMode := true;
      } else if cmd.GetRegisters? {
        reply := RegisterList();
      }
      r := Send(reply);
    }

    /** `m`: read the words, then send them. */
    method Inspect(addr: u32, len: u32, cpu: Cpu) returns (r: Result<()>)
      modifies this, cpu
      ensures var o := Peek(old(State()), cpu.answer, old(cpu.calls), addr, len);
        && r == Status(o) && outbox == old(outbox) + Written(o)
        && State() == o.session && cpu.calls == o.calls && inbox == old(inbox)
    {
      var values := ReadMemoryValues(cpu, addr, len);
      if values.Err? {
        return Err(values.error);
      }
      r := SendU32(values.value);
    }

    /** `qXfer`: fetch the document, then send the requested window. */
    method Serve(c: CpuCall, offset: u32, len: u32, cpu: Cpu) returns (r: Result<()>)
      requires c.FeatureCall? || c == ThreadsCall
      modifies this, cpu
      ensures var o := Fetch(old(State()), cpu.answer, old(cpu.calls), c, offset, len);
        && r == Status(o) && outbox == old(outbox) + Written(o)
        && State() == o.session && cpu.calls == o.calls && inbox == old(inbox)
    {
      var doc := cpu.Document(c);
      if doc.Err? {
        return Err(doc.error);
      }
      r := SendFile(doc.value, offset, len);
    }

    /** Resume, step or halt the target; then, when `stop` is set, report the
        current signal. */
    method Run(c: CpuCall, stop: bool, cpu: Cpu) returns (r: Result<()>)
      requires c == ResumeCall || c == StepCall || c == HaltCall
      modifies this, cpu
      ensures var reply := if stop then Some(SignalReply(old(lastSignal))) else None;
        var o := Control(old(State()), cpu.answer, old(cpu.calls), c, reply);
        && r == Status(o) && outbox == old(outbox) + Written(o)
        && State() == o.session && cpu.calls == o.calls && inbox == old(inbox)
    {
      r := cpu.Control(c);
      if r.Err? || !stop {
        return;
      }
      r := Send(SignalReply(lastSignal));
    }
  }
}
