/** The command language: the closed set of commands the server understands
    and the parser from a packet payload to a command. */
module Commands {
  import opened Wire
  import opened Text

  datatype BreakPointType = BreakSoft | BreakHard | WatchWrite | WatchRead | WatchAccess

  datatype GdbCommand =
    | Unknown(packet: Bytes)
    | SupportedQueries(packet: Bytes)                       // qSupported
    | StartNoAckMode                                        // QStartNoAckMode
    | SetCurrentThread(thread: u64)                         // Hg#
    | ContinueThread(tid: i32)                              // Hc# (# may be -1)
    | LastSignalPacket                                      // ?
    | GetThreadInfo                                         // qfThreadInfo
    | GetCurrentThreadId                                    // qC
    | CheckIsAttached                                       // qAttached
    | GetRegisters                                          // g
    | GetRegister(register: u32)                            // p#
    | SymbolsReady                                          // qSymbol::
    | ReadMemory(addr: u32, length: u32)                    // m#,#
    | VContQuery                                            // vCont?
    | VContContinue                                         // vCont;c
    | VContContinueFromSignal(continueArgs: Bytes)          // vCont;C04:0;c
    | VContStepFromSignal(stepArgs: Bytes)                  // vCont;s:0;c
    | Continue                                              // c
    | Step                                                  // s
    | Interrupt                                             // Ctrl-C
    | MonitorCommand(text: Bytes)                           // qRcmd,
    | AddBreakpoint(kind: BreakPointType, address: u32, size: u32)     // Z0,###,2
    | RemoveBreakpoint(kind: BreakPointType, address: u32, size: u32)  // z0,###,2
    | GetOffsets                                            // qOffsets
    | ReadFeature(filename: Bytes, offset: u32, len: u32)   // qXfer:features:read:target.xml:0,1000
    | ReadThreads(offset: u32, len: u32)                    // qXfer:threads:read::0,1000

  const U32Bound: nat := 0x1_0000_0000
  const U64Bound: nat := 0x1_0000_0000_0000_0000

  /** The digit a client writes for a breakpoint type. */
  function BreakPointDigit(t: BreakPointType): Bytes
  {
    match t
    case BreakSoft => "0"
    case BreakHard => "1"
    case WatchWrite => "2"
    case WatchRead => "3"
    case WatchAccess => "4"
  }

  /** `BreakPointType::from_str`: exactly one of the five digits, nothing else. */
  function BreakPointTypeFromStr(r: Bytes): (t: Result<BreakPointType>)
    ensures t.Ok? ==> BreakPointDigit(t.value) == r
    ensures t.Err? ==> t.error == ParseIntError
  {
    if |r| != 1 then Err(ParseIntError)
    else if r[0] == '0' then Ok(BreakSoft)
    else if r[0] == '1' then Ok(BreakHard)
    else if r[0] == '2' then Ok(WatchWrite)
    else if r[0] == '3' then Ok(WatchRead)
    else if r[0] == '4' then Ok(WatchAccess)
    else Err(ParseIntError)
  }

  lemma BreakPointTypeRoundTrip(t: BreakPointType)
    ensures BreakPointTypeFromStr(BreakPointDigit(t)) == Ok(t)
  {
  }

  /** A `u32` field: a field that is not a hexadecimal number fails the parse. */
  function ParseU32(s: Bytes): (r: Result<u32>)
    ensures r.Err? ==> r.error == ParseIntError
  {
    match ParseHexUnsigned(s, U32Bound)
    case Some(v) => Ok(v)
    case None => Err(ParseIntError)
  }

  /** One byte of a monitor command from two digits; a character that is not a
      hexadecimal digit counts as 0. */
  function PairByte(hi: char, lo: char): (b: Byte)
  {
    (16 * Nybble(hi) + Nybble(lo)) as char
  }

  /** The bytes that the hex pairs of a monitor command decode to; an odd
      trailing digit is dropped. */
  function HexPairs(h: Bytes): (r: Bytes)
    ensures |r| == |h| / 2
    decreases |h|
  {
    if |h| < 2 then [] else [PairByte(h[0], h[1])] + HexPairs(h[2..])
  }

  /** Byte `i` of the decoded text comes from digits `2i` and `2i + 1`. */
  lemma {:induction false} HexPairsAt(h: Bytes, i: nat)
    requires i < |h| / 2
    ensures HexPairs(h)[i] == PairByte(h[2 * i], h[2 * i + 1])
    decreases |h|
  {
    if i > 0 {
      HexPairsAt(h[2..], i - 1);
    }
  }

  lemma {:induction false} HexPairsSnoc(h: Bytes, a: Byte, b: Byte)
    requires |h| % 2 == 0
    ensures HexPairs(h + [a, b]) == HexPairs(h) + [PairByte(a, b)]
    decreases |h|
  {
    if |h| == 0 {
      assert h + [a, b] == [a, b];
    } else {
      assert (h + [a, b])[2..] == h[2..] + [a, b];
      HexPairsSnoc(h[2..], a, b);
    }
  }

  lemma {:induction false} HexPairsDropsOddDigit(h: Bytes)
    ensures HexPairs(h) == HexPairs(h[..|h| - |h| % 2])
    decreases |h|
  {
    if |h| >= 2 {
      HexPairsDropsOddDigit(h[2..]);
      assert h[..|h| - |h| % 2][2..] == h[2..][..|h[2..]| - |h[2..]| % 2];
    } else if |h| == 1 {
      assert h[..0] == [];
    } else {
      assert h[..0] == h;
    }
  }

  /** Decoding what a client encodes gives the monitor command text back. */
  lemma {:induction false} HexPairsOfHexEncode(s: Bytes)
    ensures HexPairs(HexEncode(s)) == s
    decreases |s|
  {
    if |s| > 0 {
      var e := HexEncode(s);
      assert e[2..] == HexEncode(s[1..]);
      HexPairsOfHexEncode(s[1..]);
      assert PairByte(e[0], e[1]) == s[0];
      assert [s[0]] + s[1..] == s;
    }
  }

  /** The decoding loop of the `qRcmd` branch: a nybble accumulator that emits
      a byte after every second digit. */
  method DecodeMonitorHex(h: Bytes) returns (out: Bytes)
    ensures out == HexPairs(h)
  {
    out := [];
    var acc: nat := 0;
    for i := 0 to |h|
      invariant out == HexPairs(h[..i - i % 2])
      invariant acc == if i % 2 == 1 then Nybble(h[i - 1]) else 0
    {
      var nybble := Nybble(h[i]);
      if i % 2 == 1 {
        assert h[..i + 1] == h[..i - 1] + [h[i - 1], h[i]];
        HexPairsSnoc(h[..i - 1], h[i - 1], h[i]);
        out := out + [(acc * 16 + nybble) as char];
        acc := 0;
      } else {
        acc := nybble;
      }
    }
    assert h[..|h|] == h;
    HexPairsDropsOddDigit(h);
  }

  function ParseReadFeature(args: Bytes): (r: Result<GdbCommand>)
    ensures r.Err? ==> r.error == ParseIntError || r.error == Panic
    ensures r.Ok? ==> r.value.ReadFeature? && ':' !in r.value.filename
  {
    var fields := Split<Byte>(args, ':');
    if |fields| < 2 then Err(Panic)
    else
      SplitPiecesLackSeparator<Byte>(args, ':', 0);
      var offsets := Split<Byte>(fields[1], ',');
      match ParseU32(offsets[0])
      case Err(e) => Err(e)
      case Ok(offset) =>
        if |offsets| < 2 then Err(Panic)
        else match ParseU32(offsets[1])
          case Err(e) => Err(e)
          case Ok(len) => Ok(ReadFeature(fields[0], offset, len))
  }

  function ParseReadThreads(args: Bytes): (r: Result<GdbCommand>)
    ensures r.Err? ==> r.error == ParseIntError || r.error == Panic
    ensures r.Ok? ==> r.value.ReadThreads?
  {
    var offsets := Split<Byte>(args, ',');
    match ParseU32(offsets[0])
    case Err(e) => Err(e)
    case Ok(offset) =>
      if |offsets| < 2 then Err(Panic)
      else match ParseU32(offsets[1])
        case Err(e) => Err(e)
        case Ok(len) => Ok(ReadThreads(offset, len))
  }

  /** The fields of `Z`/`z`: type, address and size, in that order. */
  function ParseBreakpoint(args: Bytes, add: bool): (r: Result<GdbCommand>)
    ensures r.Err? ==> r.error == ParseIntError || r.error == Panic
    ensures r.Ok? ==> if add then r.value.AddBreakpoint? else r.value.RemoveBreakpoint?
  {
    var fields := Split<Byte>(args, ',');
    match BreakPointTypeFromStr(fields[0])
    case Err(e) => Err(e)
    case Ok(kind) =>
      if |fields| < 2 then Err(Panic)
      else match ParseU32(fields[1])
        case Err(e) => Err(e)
        case Ok(address) =>
          if |fields| < 3 then Err(Panic)
          else match ParseU32(fields[2])
            case Err(e) => Err(e)
            case Ok(size) =>
              Ok(if add then AddBreakpoint(kind, address, size) else RemoveBreakpoint(kind, address, size))
  }

  function ParseReadMemory(args: Bytes): (r: Result<GdbCommand>)
    ensures r.Err? ==> r.error == ParseIntError || r.error == Panic
    ensures r.Ok? ==> r.value.ReadMemory?
  {
    var v := Split<Byte>(args, ',');
    match ParseU32(v[0])
    case Err(e) => Err(e)
    case Ok(addr) =>
      if |v| < 2 then Err(Panic)
      else match ParseU32(v[1])
        case Err(e) => Err(e)
        case Ok(length) => Ok(ReadMemory(addr, length))
  }

  /** The tests of the parser that recognise a command, in the order it
      applies them; a payload that passes none of them is unknown. */
  predicate Recognised(pkt: Bytes)
  {
    || pkt in ["qSupported", "QStartNoAckMode", "qAttached", "qOffsets", "g", "c", "s",
               "qC", "?", "qfThreadInfo", "vCont?", "vCont;c", "qSymbol::"]
    || StartsWith(pkt, "qSupported:") || StartsWith(pkt, "qXfer:features:read:")
    || StartsWith(pkt, "qXfer:threads:read::") || StartsWith(pkt, "Z") || StartsWith(pkt, "z")
    || StartsWith(pkt, "qRcmd,") || StartsWith(pkt, "m") || StartsWith(pkt, "p")
    || StartsWith(pkt, "Hg") || StartsWith(pkt, "Hc") || StartsWith(pkt, "vCont;C")
    || StartsWith(pkt, "vCont;s")
  }

  /** The branches of the parser, named after what each one leads to. */
  datatype Branch =
    | Supported | NoAck | Attached | Offsets | FeatureRead | ThreadsRead
    | BreakAdd | BreakRemove | Monitor | Registers | Resume | SingleStep
    | Memory | Register | ThreadForOps | ThreadForResume | CurrentThread | Halted
    | ThreadInfo | VContProbe | VContResume | VContSignal | VContStep | Symbols
    | NoMatch

  /** The tests of `packet_to_command`, applied in the order the code applies
      them: the first one that passes chooses the branch. */
  function Classify(pkt: Bytes): Branch
  {
    if pkt == "qSupported" || StartsWith(pkt, "qSupported:") then Supported
    else if pkt == "QStartNoAckMode" then NoAck
    else if pkt == "qAttached" then Attached
    else if pkt == "qOffsets" then Offsets
    else if StartsWith(pkt, "qXfer:features:read:") then FeatureRead
    else if StartsWith(pkt, "qXfer:threads:read::") then ThreadsRead
    else if StartsWith(pkt, "Z") then BreakAdd
    else if StartsWith(pkt, "z") then BreakRemove
    else if StartsWith(pkt, "qRcmd,") then Monitor
    else if pkt == "g" then Registers
    else if pkt == "c" then Resume
    else if pkt == "s" then SingleStep
    else if StartsWith(pkt, "m") then Memory
    else if StartsWith(pkt, "p") then Register
    else if StartsWith(pkt, "Hg") then ThreadForOps
    else if StartsWith(pkt, "Hc") then ThreadForResume
    else if pkt == "qC" then CurrentThread
    else if pkt == "?" then Halted
    else if pkt == "qfThreadInfo" then ThreadInfo
    else if pkt == "vCont?" then VContProbe
    else if pkt == "vCont;c" then VContResume
    else if StartsWith(pkt, "vCont;C") then VContSignal
    else if StartsWith(pkt, "vCont;s") then VContStep
    else if pkt == "qSymbol::" then Symbols
    else NoMatch
  }

  /** `packet_to_command`: the branch the tests choose, then that branch's
      fields.  A field that the code indexes but that the payload does not
      have (a Rust panic) gives `Err(Panic)`; a field that is not a number
      gives `Err(ParseIntError)`. */
  function PacketToCommand(pkt: Bytes): (r: Result<GdbCommand>)
    ensures r.Err? ==> r.error == ParseIntError || r.error == Panic
    ensures r.Ok? ==> !r.value.Interrupt? && !r.value.GetRegister?
    ensures r.Ok? && r.value.Unknown? ==> r.value.packet == pkt
    ensures r.Ok? && r.value.SupportedQueries? ==> r.value.packet == pkt
  {
    match Classify(pkt)
    case Supported => Ok(SupportedQueries(pkt))
    case NoAck => Ok(StartNoAckMode)
    case Attached => Ok(CheckIsAttached)
    case Offsets => Ok(GetOffsets)
    case FeatureRead => ParseReadFeature(TrimStartMatches<Byte>(pkt, "qXfer:features:read:"))
    case ThreadsRead => ParseReadThreads(TrimStartMatches<Byte>(pkt, "qXfer:threads:read::"))
    case BreakAdd => ParseBreakpoint(TrimStartMatches<Byte>(pkt, "Z"), true)
    case BreakRemove => ParseBreakpoint(TrimStartMatches<Byte>(pkt, "z"), false)
    case Monitor => Ok(MonitorCommand(HexPairs(TrimStartMatches<Byte>(pkt, "qRcmd,"))))
    case Registers => Ok(GetRegisters)
    case Resume => Ok(Continue)
    case SingleStep => Ok(Step)
    case Memory => ParseReadMemory(TrimStartMatches<Byte>(pkt, "m"))
    case Register =>
      // Only an `r` is trimmed, so the digits still begin with the `p`.
      RegisterNumberFails(pkt);
      (match ParseU32(TrimStartMatches<Byte>(pkt, "r"))
       case Ok(n) => Ok(GetRegister(n))
       case Err(e) => Err(e))
    case ThreadForOps =>
      (match ParseHexUnsigned(TrimStartMatches<Byte>(pkt, "Hg"), U64Bound)
       case Some(t) => Ok(SetCurrentThread(t))
       case None => Err(ParseIntError))
    case ThreadForResume =>
      (match ParseHexI32(TrimStartMatches<Byte>(pkt, "Hc"))
       case Some(t) => Ok(ContinueThread(t))
       case None => Err(ParseIntError))
    case CurrentThread => Ok(GetCurrentThreadId)
    case Halted => Ok(LastSignalPacket)
    case ThreadInfo => Ok(GetThreadInfo)
    case VContProbe => Ok(VContQuery)
    case VContResume => Ok(VContContinue)
    case VContSignal => Ok(VContContinueFromSignal(TrimStartMatches<Byte>(pkt, "vCont;C")))
    case VContStep => Ok(VContStepFromSignal(TrimStartMatches<Byte>(pkt, "vCont;s")))
    case Symbols => Ok(SymbolsReady)
    case NoMatch => Ok(Unknown(pkt))
  }

  /** The register number of a `p` packet is read from text that still starts
      with `p`, which is neither a digit nor a sign. */
  lemma RegisterNumberFails(pkt: Bytes)
    requires Classify(pkt) == Register
    ensures ParseU32(TrimStartMatches<Byte>(pkt, "r")) == Err(ParseIntError)
  {
    assert pkt[0] == 'p';
    assert TrimStartMatches<Byte>(pkt, "r") == pkt;
    assert !IsHexDigit(UnsignedDigits(pkt)[0]);
  }

  /** Text that differs from `p` at some position neither equals nor starts with it. */
  lemma DiffersAt(s: Bytes, p: Bytes, i: nat)
    requires i < |s| && i < |p| && s[i] != p[i]
    ensures !StartsWith(s, p) && s != p
  {
    if |p| <= |s| {
      assert s[..|p|][i] == s[i];
    }
  }

  /** A test of the parser fails for a payload whose first byte differs from
      the first byte of the test's text. */
  lemma FirstByteTests(pkt: Bytes)
    requires |pkt| > 0
    ensures pkt[0] != 'q' ==>
      && !StartsWith(pkt, "qSupported:") && pkt != "qSupported" && pkt != "qAttached"
      && pkt != "qOffsets" && !StartsWith(pkt, "qXfer:features:read:")
      && !StartsWith(pkt, "qXfer:threads:read::") && !StartsWith(pkt, "qRcmd,")
      && pkt != "qC" && pkt != "qfThreadInfo" && pkt != "qSymbol::"
    ensures pkt[0] != 'Q' ==> pkt != "QStartNoAckMode"
    ensures pkt[0] != 'Z' ==> !StartsWith(pkt, "Z")
    ensures pkt[0] != 'z' ==> !StartsWith(pkt, "z")
    ensures pkt[0] != 'g' ==> pkt != "g"
    ensures pkt[0] != 'c' ==> pkt != "c"
    ensures pkt[0] != 's' ==> pkt != "s"
    ensures pkt[0] != 'm' ==> !StartsWith(pkt, "m")
    ensures pkt[0] != 'p' ==> !StartsWith(pkt, "p")
    ensures pkt[0] != 'H' ==> !StartsWith(pkt, "Hg") && !StartsWith(pkt, "Hc")
    ensures pkt[0] != '?' ==> pkt != "?"
    ensures pkt[0] != 'v' ==>
      pkt != "vCont?" && pkt != "vCont;c" && !StartsWith(pkt, "vCont;C") && !StartsWith(pkt, "vCont;s")
  {
    if pkt[0] != 'q' {
      DiffersAt(pkt, "qSupported:", 0);
      DiffersAt(pkt, "qSupported", 0);
      DiffersAt(pkt, "qAttached", 0);
      DiffersAt(pkt, "qOffsets", 0);
      DiffersAt(pkt, "qXfer:features:read:", 0);
      DiffersAt(pkt, "qXfer:threads:read::", 0);
      DiffersAt(pkt, "qRcmd,", 0);
      DiffersAt(pkt, "qC", 0);
      DiffersAt(pkt, "qfThreadInfo", 0);
      DiffersAt(pkt, "qSymbol::", 0);
    }
    if pkt[0] != 'Q' { DiffersAt(pkt, "QStartNoAckMode", 0); }
    if pkt[0] != 'Z' { DiffersAt(pkt, "Z", 0); }
    if pkt[0] != 'z' { DiffersAt(pkt, "z", 0); }
    if pkt[0] != 'g' { DiffersAt(pkt, "g", 0); }
    if pkt[0] != 'c' { DiffersAt(pkt, "c", 0); }
    if pkt[0] != 's' { DiffersAt(pkt, "s", 0); }
    if pkt[0] != 'm' { DiffersAt(pkt, "m", 0); }
    if pkt[0] != 'p' { DiffersAt(pkt, "p", 0); }
    if pkt[0] != 'H' {
      DiffersAt(pkt, "Hg", 0);
      DiffersAt(pkt, "Hc", 0);
    }
    if pkt[0] != '?' { DiffersAt(pkt, "?", 0); }
    if pkt[0] != 'v' {
      DiffersAt(pkt, "vCont?", 0);
      DiffersAt(pkt, "vCont;c", 0);
      DiffersAt(pkt, "vCont;C", 0);
      DiffersAt(pkt, "vCont;s", 0);
    }
  }

  /** Every payload that starts with `p` fails to parse: no `GetRegister`
      command is ever built. */
  lemma RegisterReadAlwaysFails(pkt: Bytes)
    requires StartsWith(pkt, "p")
    ensures PacketToCommand(pkt) == Err(ParseIntError)
  {
    assert pkt[0] == 'p';
    FirstByteTests(pkt);
    RegisterNumberFails(pkt);
  }

  /** Totality of the grammar: a payload is taken as unknown exactly when it
      passes none of the parser's tests, and then it is carried unchanged. */
  lemma UnknownExactlyWhenUnrecognised(pkt: Bytes)
    ensures PacketToCommand(pkt) == Ok(Unknown(pkt)) <==> !Recognised(pkt)
  {
    NoMatchExactlyWhenUnrecognised(pkt);
  }

  lemma NoMatchExactlyWhenUnrecognised(pkt: Bytes)
    ensures Classify(pkt) == NoMatch <==> !Recognised(pkt)
  {
  }
}
