/** What a debugger client sends for each command, and the proof that the
    parser reads every such payload back as the command it encodes. */
module Client {
  import opened Wire
  import opened Text
  import opened Commands

  /** Two numbers in hexadecimal separated by a comma, as in an address and
      length field. */
  function Pair(a: nat, b: nat): Bytes
  {
    HexOf(a) + "," + HexOf(b)
  }

  /** The payload a client sends for a command (the packet grammar of the
      protocol).  An interrupt is a bare byte, not a payload. */
  function Render(cmd: GdbCommand): Bytes
  {
    match cmd
    case Unknown(p) => p
    case SupportedQueries(p) => p
    case StartNoAckMode => "QStartNoAckMode"
    case SetCurrentThread(t) => "Hg" + HexOf(t)
    case ContinueThread(t) => "Hc" + SignedHexOf(t)
    case LastSignalPacket => "?"
    case GetThreadInfo => "qfThreadInfo"
    case GetCurrentThreadId => "qC"
    case CheckIsAttached => "qAttached"
    case GetRegisters => "g"
    case GetRegister(n) => "p" + HexOf(n)
    case SymbolsReady => "qSymbol::"
    case ReadMemory(a, n) => "m" + Pair(a, n)
    case VContQuery => "vCont?"
    case VContContinue => "vCont;c"
    case VContContinueFromSignal(a) => "vCont;C" + a
    case VContStepFromSignal(a) => "vCont;s" + a
    case Continue => "c"
    case Step => "s"
    case Interrupt => []
    case MonitorCommand(t) => "qRcmd," + HexEncode(t)
    case AddBreakpoint(k, a, n) => "Z" + (BreakPointDigit(k) + "," + Pair(a, n))
    case RemoveBreakpoint(k, a, n) => "z" + (BreakPointDigit(k) + "," + Pair(a, n))
    case GetOffsets => "qOffsets"
    case ReadFeature(name, off, len) => "qXfer:features:read:" + (name + ":" + Pair(off, len))
    case ReadThreads(off, len) => "qXfer:threads:read::" + Pair(off, len)
  }

  /** The commands whose rendering the parser reads back.  Excluded: the
      interrupt (not a packet), a register read (its payload never parses), a
      feature name with a `:` in it, signal arguments that repeat their own
      prefix, and "unknown" text that one of the tests recognises. */
  predicate Renderable(cmd: GdbCommand)
  {
    match cmd
    case Unknown(p) => !Recognised(p)
    case SupportedQueries(p) => p == "qSupported" || StartsWith(p, "qSupported:")
    case ReadFeature(name, _, _) => ':' !in name
    case VContContinueFromSignal(a) => !StartsWith(a, "vCont;C")
    case VContStepFromSignal(a) => !StartsWith(a, "vCont;s")
    case GetRegister(_) => false
    case Interrupt => false
    case _ => true
  }

  /** The commands that carry no field, each with its one payload. */
  predicate Fieldless(cmd: GdbCommand)
  {
    || cmd.StartNoAckMode? || cmd.CheckIsAttached? || cmd.GetOffsets? || cmd.GetRegisters?
    || cmd.Continue? || cmd.Step? || cmd.GetCurrentThreadId? || cmd.LastSignalPacket?
    || cmd.GetThreadInfo? || cmd.VContQuery? || cmd.VContContinue? || cmd.SymbolsReady?
  }

  lemma PrefixThenRest(p: Bytes, s: Bytes)
    ensures StartsWith(p + s, p) && (p + s)[|p|..] == s
  {
    assert (p + s)[..|p|] == p;
  }

  /** One leading copy of the prefix goes when the rest does not repeat it. */
  lemma TrimOnce(p: Bytes, s: Bytes)
    requires |p| > 0 && !StartsWith(s, p)
    ensures TrimStartMatches<Byte>(p + s, p) == s
  {
    PrefixThenRest(p, s);
  }

  /** The parser's tests that begin with `q` and come before the `qXfer`
      tests fail for a payload whose second byte is `X`. */
  lemma EarlyQueryTests(pkt: Bytes)
    requires |pkt| > 1 && pkt[0] == 'q' && pkt[1] == 'X'
    ensures !StartsWith(pkt, "qSupported:") && pkt != "qSupported" && pkt != "QStartNoAckMode"
    ensures pkt != "qAttached" && pkt != "qOffsets"
  {
    DiffersAt(pkt, "qSupported:", 1);
    DiffersAt(pkt, "qSupported", 1);
    DiffersAt(pkt, "QStartNoAckMode", 0);
    DiffersAt(pkt, "qAttached", 1);
    DiffersAt(pkt, "qOffsets", 1);
  }

  lemma ReachReadFeature(pkt: Bytes)
    requires StartsWith(pkt, "qXfer:features:read:")
    ensures Classify(pkt) == FeatureRead
  {
    assert pkt[0] == 'q' && pkt[1] == 'X';
    EarlyQueryTests(pkt);
  }

  lemma ReachReadThreads(pkt: Bytes)
    requires StartsWith(pkt, "qXfer:threads:read::")
    ensures Classify(pkt) == ThreadsRead
  {
    assert pkt[0] == 'q' && pkt[1] == 'X' && pkt[6] == 't';
    EarlyQueryTests(pkt);
    DiffersAt(pkt, "qXfer:features:read:", 6);
  }

  lemma ReachBreakpoint(pkt: Bytes, add: bool)
    requires |pkt| > 0 && pkt[0] == if add then 'Z' else 'z'
    ensures Classify(pkt) == if add then BreakAdd else BreakRemove
  {
    FirstByteTests(pkt);
    assert StartsWith(pkt, if add then "Z" else "z");
  }

  lemma ReachMonitor(pkt: Bytes)
    requires StartsWith(pkt, "qRcmd,")
    ensures Classify(pkt) == Monitor
  {
    assert pkt[0] == 'q' && pkt[1] == 'R';
    DiffersAt(pkt, "qSupported:", 1);
    DiffersAt(pkt, "qSupported", 1);
    DiffersAt(pkt, "qAttached", 1);
    DiffersAt(pkt, "qOffsets", 1);
    DiffersAt(pkt, "qXfer:features:read:", 1);
    DiffersAt(pkt, "qXfer:threads:read::", 1);
    FirstByteTests(pkt);
  }

  lemma ReachReadMemory(pkt: Bytes)
    requires |pkt| > 0 && pkt[0] == 'm'
    ensures Classify(pkt) == Memory
  {
    FirstByteTests(pkt);
    assert StartsWith(pkt, "m");
  }

  lemma ReachSetThread(pkt: Bytes)
    requires StartsWith(pkt, "Hg")
    ensures Classify(pkt) == ThreadForOps
  {
    assert pkt[0] == 'H';
    FirstByteTests(pkt);
  }

  lemma ReachContinueThread(pkt: Bytes)
    requires StartsWith(pkt, "Hc")
    ensures Classify(pkt) == ThreadForResume
  {
    assert pkt[0] == 'H' && pkt[1] == 'c';
    FirstByteTests(pkt);
    DiffersAt(pkt, "Hg", 1);
  }

  /** The `vCont` tests that take no argument fail for a payload with a
      sixth byte after `vCont;`. */
  lemma VContArgumentTests(pkt: Bytes)
    requires |pkt| > 7 && pkt[0] == 'v' && pkt[5] == ';'
    ensures pkt != "vCont?" && pkt != "vCont;c"
  {
    DiffersAt(pkt, "vCont?", 5);
  }

  lemma ReachVContContinue(pkt: Bytes)
    requires StartsWith(pkt, "vCont;C")
    ensures Classify(pkt) == VContSignal
  {
    assert pkt[0] == 'v' && pkt[5] == ';' && pkt[6] == 'C';
    FirstByteTests(pkt);
    DiffersAt(pkt, "vCont?", 5);
    DiffersAt(pkt, "vCont;c", 6);
  }

  lemma ReachVContStep(pkt: Bytes)
    requires StartsWith(pkt, "vCont;s")
    ensures Classify(pkt) == VContStep
  {
    assert pkt[0] == 'v' && pkt[5] == ';' && pkt[6] == 's';
    FirstByteTests(pkt);
    DiffersAt(pkt, "vCont?", 5);
    DiffersAt(pkt, "vCont;c", 6);
    DiffersAt(pkt, "vCont;C", 6);
  }

  /** Trimming a prefix from text that does not begin with the prefix's
      first byte takes off exactly one copy. */
  lemma TrimAfter(p: Bytes, s: Bytes)
    requires |p| > 0 && |s| > 0 && s[0] != p[0]
    ensures TrimStartMatches<Byte>(p + s, p) == s
  {
    DiffersAt(s, p, 0);
    TrimOnce(p, s);
  }

  lemma SplitTwo(a: Bytes, sep: Byte, b: Bytes)
    requires sep !in a && sep !in b
    ensures Split(a + [sep] + b, sep) == [a, b]
  {
    SplitFirst<Byte>(a, sep, b);
    SplitNoSeparator<Byte>(b, sep);
  }

  lemma HexHasNo(n: nat, c: Byte)
    requires !IsHexDigit(c)
    ensures c !in HexOf(n)
  {
  }

  /** The text of two numbers begins with a digit and holds neither `:` nor
      a second comma. */
  lemma PairShape(a: nat, b: nat)
    ensures |Pair(a, b)| > 0 && IsHexDigit(Pair(a, b)[0]) && ':' !in Pair(a, b)
  {
    HexHasNo(a, ':');
    HexHasNo(b, ':');
  }

  /** The two numbers of an offset/length or address/length field. */
  lemma ParsePair(a: u32, b: u32)
    ensures var v := Split<Byte>(Pair(a, b), ',');
      v == [HexOf(a), HexOf(b)] && ParseU32(v[0]) == Ok(a) && ParseU32(v[1]) == Ok(b)
  {
    HexHasNo(a, ',');
    HexHasNo(b, ',');
    SplitTwo(HexOf(a), ',', HexOf(b));
    ParseHexOf(a, U32Bound);
    ParseHexOf(b, U32Bound);
  }

  lemma ParseReadMemoryFields(a: u32, n: u32)
    ensures ParseReadMemory(Pair(a, n)) == Ok(ReadMemory(a, n))
  {
    ParsePair(a, n);
  }

  lemma ParseReadThreadsFields(off: u32, len: u32)
    ensures ParseReadThreads(Pair(off, len)) == Ok(ReadThreads(off, len))
  {
    ParsePair(off, len);
  }

  lemma ParseReadFeatureFields(name: Bytes, off: u32, len: u32)
    requires ':' !in name
    ensures ParseReadFeature(name + ":" + Pair(off, len)) == Ok(ReadFeature(name, off, len))
  {
    PairShape(off, len);
    SplitTwo(name, ':', Pair(off, len));
    ParsePair(off, len);
  }

  lemma SplitBreakpointFields(d: Bytes, a: nat, n: nat)
    requires ',' !in d
    ensures Split<Byte>(d + "," + Pair(a, n), ',') == [d, HexOf(a), HexOf(n)]
  {
    HexHasNo(a, ',');
    HexHasNo(n, ',');
    assert d + "," + Pair(a, n) == d + [','] + (HexOf(a) + [','] + HexOf(n));
    SplitFirst<Byte>(d, ',', HexOf(a) + [','] + HexOf(n));
    SplitTwo(HexOf(a), ',', HexOf(n));
  }

  lemma ParseBreakpointFields(add: bool, k: BreakPointType, a: u32, n: u32)
    ensures ParseBreakpoint(BreakPointDigit(k) + "," + Pair(a, n), add) ==
      Ok(if add then AddBreakpoint(k, a, n) else RemoveBreakpoint(k, a, n))
  {
    SplitBreakpointFields(BreakPointDigit(k), a, n);
    ParseHexOf(a, U32Bound);
    ParseHexOf(n, U32Bound);
    BreakPointTypeRoundTrip(k);
  }

  /** A feature name without `:` cannot make the text repeat the prefix,
      which holds two `:` in its first fifteen bytes. */
  lemma FeatureArgsNotPrefixed(name: Bytes, nums: Bytes)
    requires ':' !in name && ':' !in nums
    ensures !StartsWith(name + ":" + nums, "qXfer:features:read:")
  {
    var rest := name + ":" + nums;
    var prefix: Bytes := "qXfer:features:read:";
    if |rest| >= |prefix| {
      if |name| == 5 {
        assert rest[14] == nums[8];
        DiffersAt(rest, prefix, 14);
      } else if |name| > 5 {
        assert rest[5] == name[5];
        DiffersAt(rest, prefix, 5);
      } else {
        assert rest[5] == nums[4 - |name|];
        DiffersAt(rest, prefix, 5);
      }
    }
  }

  lemma TrimFeature(name: Bytes, off: u32, len: u32)
    requires ':' !in name
    ensures var rest := name + ":" + Pair(off, len);
      var pkt := "qXfer:features:read:" + rest;
      StartsWith(pkt, "qXfer:features:read:") && TrimStartMatches<Byte>(pkt, "qXfer:features:read:") == rest
  {
    PairShape(off, len);
    FeatureArgsNotPrefixed(name, Pair(off, len));
    PrefixThenRest("qXfer:features:read:", name + ":" + Pair(off, len));
    TrimOnce("qXfer:features:read:", name + ":" + Pair(off, len));
  }

  lemma ParseRenderReadFeature(name: Bytes, off: u32, len: u32)
    requires ':' !in name
    ensures PacketToCommand(Render(ReadFeature(name, off, len))) == Ok(ReadFeature(name, off, len))
  {
    assert Render(ReadFeature(name, off, len)) == "qXfer:features:read:" + (name + ":" + Pair(off, len));
    TrimFeature(name, off, len);
    ReachReadFeature("qXfer:features:read:" + (name + ":" + Pair(off, len)));
    ParseReadFeatureFields(name, off, len);
  }

  lemma TrimReadThreads(off: u32, len: u32)
    ensures var pkt := "qXfer:threads:read::" + Pair(off, len);
      StartsWith(pkt, "qXfer:threads:read::") && TrimStartMatches<Byte>(pkt, "qXfer:threads:read::") == Pair(off, len)
  {
    PairShape(off, len);
    PrefixThenRest("qXfer:threads:read::", Pair(off, len));
    TrimAfter("qXfer:threads:read::", Pair(off, len));
  }

  lemma ParseRenderReadThreads(off: u32, len: u32)
    ensures PacketToCommand(Render(ReadThreads(off, len))) == Ok(ReadThreads(off, len))
  {
    assert Render(ReadThreads(off, len)) == "qXfer:threads:read::" + Pair(off, len);
    TrimReadThreads(off, len);
    ReachReadThreads("qXfer:threads:read::" + Pair(off, len));
    ParseReadThreadsFields(off, len);
  }

  lemma TrimBreakpoint(add: bool, k: BreakPointType, a: u32, n: u32)
    ensures var prefix: Bytes := if add then "Z" else "z";
      var rest := BreakPointDigit(k) + "," + Pair(a, n);
      var pkt := prefix + rest;
      |pkt| > 0 && pkt[0] == prefix[0] && TrimStartMatches<Byte>(pkt, prefix) == rest
  {
    var prefix: Bytes := if add then "Z" else "z";
    var rest := BreakPointDigit(k) + "," + Pair(a, n);
    assert rest[0] == BreakPointDigit(k)[0];
    TrimAfter(prefix, rest);
  }

  lemma ParseRenderAddBreakpoint(k: BreakPointType, a: u32, n: u32)
    ensures PacketToCommand(Render(AddBreakpoint(k, a, n))) == Ok(AddBreakpoint(k, a, n))
  {
    var pkt := "Z" + (BreakPointDigit(k) + "," + Pair(a, n));
    assert Render(AddBreakpoint(k, a, n)) == pkt;
    TrimBreakpoint(true, k, a, n);
    ReachBreakpoint(pkt, true);
    ParseBreakpointFields(true, k, a, n);
  }

  lemma ParseRenderRemoveBreakpoint(k: BreakPointType, a: u32, n: u32)
    ensures PacketToCommand(Render(RemoveBreakpoint(k, a, n))) == Ok(RemoveBreakpoint(k, a, n))
  {
    var pkt := "z" + (BreakPointDigit(k) + "," + Pair(a, n));
    assert Render(RemoveBreakpoint(k, a, n)) == pkt;
    TrimBreakpoint(false, k, a, n);
    ReachBreakpoint(pkt, false);
    ParseBreakpointFields(false, k, a, n);
  }

  lemma TrimMonitor(t: Bytes)
    ensures var pkt := "qRcmd," + HexEncode(t);
      StartsWith(pkt, "qRcmd,") && TrimStartMatches<Byte>(pkt, "qRcmd,") == HexEncode(t)
  {
    var rest := HexEncode(t);
    PrefixThenRest("qRcmd,", rest);
    if |rest| > 0 {
      DiffersAt(rest, "qRcmd,", 0);
    }
    TrimOnce("qRcmd,", rest);
  }

  lemma ParseRenderMonitor(t: Bytes)
    ensures PacketToCommand(Render(MonitorCommand(t))) == Ok(MonitorCommand(t))
  {
    assert Render(MonitorCommand(t)) == "qRcmd," + HexEncode(t);
    TrimMonitor(t);
    ReachMonitor("qRcmd," + HexEncode(t));
    HexPairsOfHexEncode(t);
  }

  lemma TrimReadMemory(a: u32, n: u32)
    ensures TrimStartMatches<Byte>("m" + Pair(a, n), "m") == Pair(a, n)
  {
    PairShape(a, n);
    TrimAfter("m", Pair(a, n));
  }

  lemma ParseRenderReadMemory(a: u32, n: u32)
    ensures PacketToCommand(Render(ReadMemory(a, n))) == Ok(ReadMemory(a, n))
  {
    assert Render(ReadMemory(a, n)) == "m" + Pair(a, n);
    TrimReadMemory(a, n);
    ReachReadMemory("m" + Pair(a, n));
    ParseReadMemoryFields(a, n);
  }

  lemma TrimSetThread(t: u64)
    ensures var pkt := "Hg" + HexOf(t);
      StartsWith(pkt, "Hg") && TrimStartMatches<Byte>(pkt, "Hg") == HexOf(t)
      && ParseHexUnsigned(HexOf(t), U64Bound) == Some(t)
  {
    PrefixThenRest("Hg", HexOf(t));
    assert IsHexDigit(HexOf(t)[0]);
    TrimAfter("Hg", HexOf(t));
    ParseHexOf(t, U64Bound);
  }

  lemma ParseRenderSetThread(t: u64)
    ensures PacketToCommand(Render(SetCurrentThread(t))) == Ok(SetCurrentThread(t))
  {
    assert Render(SetCurrentThread(t)) == "Hg" + HexOf(t);
    TrimSetThread(t);
    ReachSetThread("Hg" + HexOf(t));
  }

  lemma TrimContinueThread(t: i32)
    ensures var pkt := "Hc" + SignedHexOf(t);
      StartsWith(pkt, "Hc") && TrimStartMatches<Byte>(pkt, "Hc") == SignedHexOf(t)
      && ParseHexI32(SignedHexOf(t)) == Some(t)
  {
    var rest := SignedHexOf(t);
    PrefixThenRest("Hc", rest);
    assert |rest| > 0 && (rest[0] == '-' || IsHexDigit(rest[0]));
    TrimAfter("Hc", rest);
    ParseSignedHexOf(t);
  }

  lemma ParseRenderContinueThread(t: i32)
    ensures PacketToCommand(Render(ContinueThread(t))) == Ok(ContinueThread(t))
  {
    assert Render(ContinueThread(t)) == "Hc" + SignedHexOf(t);
    TrimContinueThread(t);
    ReachContinueThread("Hc" + SignedHexOf(t));
  }

  lemma TrimVCont(prefix: Bytes, rest: Bytes)
    requires prefix == "vCont;C" || prefix == "vCont;s"
    requires !StartsWith(rest, prefix)
    ensures StartsWith(prefix + rest, prefix) && TrimStartMatches<Byte>(prefix + rest, prefix) == rest
  {
    PrefixThenRest(prefix, rest);
    TrimOnce(prefix, rest);
  }

  lemma ParseRenderVCont(cmd: GdbCommand)
    requires cmd.VContContinueFromSignal? || cmd.VContStepFromSignal?
    requires Renderable(cmd)
    ensures PacketToCommand(Render(cmd)) == Ok(cmd)
  {
    if cmd.VContContinueFromSignal? {
      assert Render(cmd) == "vCont;C" + cmd.continueArgs;
      TrimVCont("vCont;C", cmd.continueArgs);
      ReachVContContinue("vCont;C" + cmd.continueArgs);
    } else {
      assert Render(cmd) == "vCont;s" + cmd.stepArgs;
      TrimVCont("vCont;s", cmd.stepArgs);
      ReachVContStep("vCont;s" + cmd.stepArgs);
    }
  }

  lemma ParseRenderSupported(p: Bytes)
    requires p == "qSupported" || StartsWith(p, "qSupported:")
    ensures PacketToCommand(Render(SupportedQueries(p))) == Ok(SupportedQueries(p))
  {
  }

  lemma ParseRenderUnknown(p: Bytes)
    requires !Recognised(p)
    ensures PacketToCommand(Render(Unknown(p))) == Ok(Unknown(p))
  {
    UnknownExactlyWhenUnrecognised(p);
  }

  /** The branch of the parser that yields a fieldless command. */
  function FieldlessBranch(cmd: GdbCommand): (b: Branch)
    requires Fieldless(cmd)
  {
    match cmd
    case StartNoAckMode => NoAck
    case CheckIsAttached => Attached
    case GetOffsets => Offsets
    case GetRegisters => Registers
    case Continue => Resume
    case Step => SingleStep
    case GetCurrentThreadId => CurrentThread
    case LastSignalPacket => Halted
    case GetThreadInfo => ThreadInfo
    case VContQuery => VContProbe
    case VContContinue => VContResume
    case SymbolsReady => Symbols
  }

  lemma ClassifyQueryText(cmd: GdbCommand)
    requires cmd.CheckIsAttached? || cmd.GetOffsets? || cmd.GetCurrentThreadId?
    ensures Classify(Render(cmd)) == FieldlessBranch(cmd)
  {
    var pkt := Render(cmd);
    assert pkt[0] == 'q';
    FirstByteTests(pkt);
    DiffersAt(pkt, "qSupported", 1);
    DiffersAt(pkt, "qSupported:", 1);
    if !cmd.CheckIsAttached? {
      DiffersAt(pkt, "qAttached", 1);
    }
    if cmd.GetCurrentThreadId? {
      DiffersAt(pkt, "qOffsets", 1);
    }
  }

  /** The earlier `q` tests fail for a payload that begins `qf` or `qS`
      followed by a `y`. */
  lemma LateQueryTests(pkt: Bytes)
    requires |pkt| > 2 && pkt[0] == 'q' && (pkt[1] == 'f' || (pkt[1] == 'S' && pkt[2] == 'y'))
    ensures pkt != "qSupported" && !StartsWith(pkt, "qSupported:") && pkt != "qAttached"
    ensures pkt != "qOffsets" && !StartsWith(pkt, "qXfer:features:read:")
    ensures !StartsWith(pkt, "qXfer:threads:read::") && !StartsWith(pkt, "qRcmd,") && pkt != "qC"
  {
    var i := if pkt[1] == 'f' then 1 else 2;
    DiffersAt(pkt, "qSupported:", i);
    DiffersAt(pkt, "qSupported", i);
    DiffersAt(pkt, "qAttached", 1);
    DiffersAt(pkt, "qOffsets", 1);
    DiffersAt(pkt, "qXfer:features:read:", 1);
    DiffersAt(pkt, "qXfer:threads:read::", 1);
    DiffersAt(pkt, "qRcmd,", 1);
    DiffersAt(pkt, "qC", 1);
  }

  lemma ClassifyLateQueryText(cmd: GdbCommand)
    requires cmd.GetThreadInfo? || cmd.SymbolsReady?
    ensures Classify(Render(cmd)) == FieldlessBranch(cmd)
  {
    var pkt := Render(cmd);
    assert pkt[0] == 'q' && pkt[1] in "fS" && pkt[2] in "Ty";
    FirstByteTests(pkt);
    LateQueryTests(pkt);
    if cmd.SymbolsReady? {
      DiffersAt(pkt, "qfThreadInfo", 1);
    }
  }

  lemma ClassifyOtherText(cmd: GdbCommand)
    requires Fieldless(cmd) && !cmd.CheckIsAttached? && !cmd.GetOffsets? && !cmd.GetCurrentThreadId?
    requires !cmd.GetThreadInfo? && !cmd.SymbolsReady?
    ensures Classify(Render(cmd)) == FieldlessBranch(cmd)
  {
    var pkt := Render(cmd);
    assert |pkt| > 0 && pkt[0] != 'q';
    FirstByteTests(pkt);
    if cmd.VContContinue? {
      DiffersAt(pkt, "vCont?", 5);
    }
  }

  /** Every fieldless command's payload reaches the branch that yields it. */
  lemma ClassifyFieldless(cmd: GdbCommand)
    requires Fieldless(cmd)
    ensures Classify(Render(cmd)) == FieldlessBranch(cmd)
  {
    if cmd.CheckIsAttached? || cmd.GetOffsets? || cmd.GetCurrentThreadId? {
      ClassifyQueryText(cmd);
    } else if cmd.GetThreadInfo? || cmd.SymbolsReady? {
      ClassifyLateQueryText(cmd);
    } else {
      ClassifyOtherText(cmd);
    }
  }

  /** The parser reads every fieldless command back from its payload. */
  lemma ParseRenderFieldless(cmd: GdbCommand)
    requires Fieldless(cmd)
    ensures PacketToCommand(Render(cmd)) == Ok(cmd)
  {
    ClassifyFieldless(cmd);
    DecodeFieldless(Render(cmd), cmd);
  }

  lemma DecodeFieldless(pkt: Bytes, cmd: GdbCommand)
    requires Fieldless(cmd) && Classify(pkt) == FieldlessBranch(cmd)
    ensures PacketToCommand(pkt) == Ok(cmd)
  {
  }

  /** Round trip: for every command a client can send, parsing the payload
      the client sends yields that command, fields and all. */
  lemma ParseRender(cmd: GdbCommand)
    requires Renderable(cmd)
    ensures PacketToCommand(Render(cmd)) == Ok(cmd)
  {
    match cmd
    case Unknown(p) => ParseRenderUnknown(p);
    case SupportedQueries(p) => ParseRenderSupported(p);
    case SetCurrentThread(t) => ParseRenderSetThread(t);
    case ContinueThread(t) => ParseRenderContinueThread(t);
    case ReadMemory(a, n) => ParseRenderReadMemory(a, n);
    case VContContinueFromSignal(_) => ParseRenderVCont(cmd);
    case VContStepFromSignal(_) => ParseRenderVCont(cmd);
    case MonitorCommand(t) => ParseRenderMonitor(t);
    case AddBreakpoint(k, a, n) => ParseRenderAddBreakpoint(k, a, n);
    case RemoveBreakpoint(k, a, n) => ParseRenderRemoveBreakpoint(k, a, n);
    case ReadFeature(name, off, len) => ParseRenderReadFeature(name, off, len);
    case ReadThreads(off, len) => ParseRenderReadThreads(off, len);
    case _ => ParseRenderFieldless(cmd);
  }

  /** Only its own branch yields a fieldless command. */
  lemma FieldlessDecoded(pkt: Bytes, cmd: GdbCommand)
    requires Fieldless(cmd) && PacketToCommand(pkt) == Ok(cmd)
    ensures Classify(pkt) == FieldlessBranch(cmd)
  {
  }

  /** The branches that yield a fieldless command test for one exact payload. */
  lemma EqualityBranches(pkt: Bytes)
    ensures Classify(pkt) == NoAck ==> pkt == "QStartNoAckMode"
    ensures Classify(pkt) == Attached ==> pkt == "qAttached"
    ensures Classify(pkt) == Offsets ==> pkt == "qOffsets"
    ensures Classify(pkt) == Registers ==> pkt == "g"
    ensures Classify(pkt) == Resume ==> pkt == "c"
    ensures Classify(pkt) == SingleStep ==> pkt == "s"
    ensures Classify(pkt) == CurrentThread ==> pkt == "qC"
    ensures Classify(pkt) == Halted ==> pkt == "?"
    ensures Classify(pkt) == ThreadInfo ==> pkt == "qfThreadInfo"
    ensures Classify(pkt) == VContProbe ==> pkt == "vCont?"
    ensures Classify(pkt) == VContResume ==> pkt == "vCont;c"
    ensures Classify(pkt) == Symbols ==> pkt == "qSymbol::"
  {
  }

  /** Conversely, a fieldless command is parsed from its own payload only. */
  lemma FieldlessOrigin(pkt: Bytes, cmd: GdbCommand)
    requires Fieldless(cmd) && PacketToCommand(pkt) == Ok(cmd)
    ensures pkt == Render(cmd)
  {
    FieldlessDecoded(pkt, cmd);
    EqualityBranches(pkt);
  }
}
