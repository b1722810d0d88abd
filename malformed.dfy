/** When the parser refuses a payload, and with which error: the fields of
    a command are read left to right, a field that is not a number gives
    `ParseIntError`, and a field that is missing after good ones makes the
    server panic (an index past the end of the split). */
module Malformed {
  import opened Wire
  import opened Text
  import opened Commands
  import opened Client

  /** The command a breakpoint packet names, `Z` adding and `z` removing. */
  function Breakpoint(add: bool, kind: BreakPointType, address: u32, size: u32): (cmd: GdbCommand)
    ensures add ==> cmd == AddBreakpoint(kind, address, size)
    ensures !add ==> cmd == RemoveBreakpoint(kind, address, size)
  {
    if add then AddBreakpoint(kind, address, size) else RemoveBreakpoint(kind, address, size)
  }

  lemma SplitThree(a: Bytes, sep: Byte, b: Bytes, c: Bytes)
    requires sep !in a && sep !in b && sep !in c
    ensures Split(a + [sep] + b + [sep] + c, sep) == [a, b, c]
  {
    assert a + [sep] + b + [sep] + c == a + [sep] + (b + [sep] + c);
    SplitFirst<Byte>(a, sep, b + [sep] + c);
    SplitTwo(b, sep, c);
  }

  /** Type, address and size: the breakpoint parses exactly when all three
      do, and otherwise the first field that fails gives `ParseIntError`. */
  lemma BreakpointFieldErrors(d: Bytes, a: Bytes, n: Bytes, add: bool)
    requires ',' !in d && ',' !in a && ',' !in n
    ensures var r := ParseBreakpoint(d + "," + a + "," + n, add);
      && (r.Ok? <==> BreakPointTypeFromStr(d).Ok? && ParseU32(a).Ok? && ParseU32(n).Ok?)
      && (r.Err? ==> r.error == ParseIntError)
      && (BreakPointTypeFromStr(d).Ok? && ParseU32(a).Ok? && ParseU32(n).Ok? ==>
          r == Ok(Breakpoint(add, BreakPointTypeFromStr(d).value, ParseU32(a).value, ParseU32(n).value)))
  {
    SplitThree(d, ',', a, n);
  }

  /** A breakpoint with a good type but no address, or with a good type and
      address but no size, is a panic; a bad field before the gap is still
      a `ParseIntError`. */
  lemma BreakpointMissingFields(d: Bytes, a: Bytes, add: bool)
    requires ',' !in d && ',' !in a
    ensures ParseBreakpoint(d, add) ==
      if BreakPointTypeFromStr(d).Ok? then Err(Panic) else Err(ParseIntError)
    ensures ParseBreakpoint(d + "," + a, add) ==
      if BreakPointTypeFromStr(d).Ok? && ParseU32(a).Ok? then Err(Panic) else Err(ParseIntError)
  {
    SplitNoSeparator<Byte>(d, ',');
    SplitTwo(d, ',', a);
  }

  /** Address and length of `m`: the read parses exactly when both do; a
      lone good address is a panic. */
  lemma ReadMemoryFieldErrors(a: Bytes, n: Bytes)
    requires ',' !in a && ',' !in n
    ensures var r := ParseReadMemory(a + "," + n);
      && (r.Ok? <==> ParseU32(a).Ok? && ParseU32(n).Ok?)
      && (r.Err? ==> r.error == ParseIntError)
      && (ParseU32(a).Ok? && ParseU32(n).Ok? ==> r == Ok(ReadMemory(ParseU32(a).value, ParseU32(n).value)))
    ensures ParseReadMemory(a) == if ParseU32(a).Ok? then Err(Panic) else Err(ParseIntError)
  {
    SplitTwo(a, ',', n);
    SplitNoSeparator<Byte>(a, ',');
  }

  /** Offset and length of a thread-list read, with the same rules. */
  lemma ReadThreadsFieldErrors(off: Bytes, len: Bytes)
    requires ',' !in off && ',' !in len
    ensures var r := ParseReadThreads(off + "," + len);
      && (r.Ok? <==> ParseU32(off).Ok? && ParseU32(len).Ok?)
      && (r.Err? ==> r.error == ParseIntError)
      && (ParseU32(off).Ok? && ParseU32(len).Ok? ==> r == Ok(ReadThreads(ParseU32(off).value, ParseU32(len).value)))
    ensures ParseReadThreads(off) == if ParseU32(off).Ok? then Err(Panic) else Err(ParseIntError)
  {
    SplitTwo(off, ',', len);
    SplitNoSeparator<Byte>(off, ',');
  }

  /** Name, offset and length of a target-description read: a name with no
      `:` after it is a panic, and the numbers follow the rules above. */
  lemma ReadFeatureFieldErrors(name: Bytes, off: Bytes, len: Bytes)
    requires ':' !in name && ':' !in off && ':' !in len && ',' !in off && ',' !in len
    ensures var r := ParseReadFeature(name + ":" + off + "," + len);
      && (r.Ok? <==> ParseU32(off).Ok? && ParseU32(len).Ok?)
      && (r.Err? ==> r.error == ParseIntError)
      && (ParseU32(off).Ok? && ParseU32(len).Ok? ==> r == Ok(ReadFeature(name, ParseU32(off).value, ParseU32(len).value)))
    ensures ParseReadFeature(name + ":" + off) == if ParseU32(off).Ok? then Err(Panic) else Err(ParseIntError)
    ensures ParseReadFeature(name) == Err(Panic)
  {
    assert name + ":" + off + "," + len == name + [':'] + (off + [','] + len);
    SplitTwo(name, ':', off + [','] + len);
    SplitTwo(off, ',', len);
    SplitTwo(name, ':', off);
    SplitNoSeparator<Byte>(off, ',');
    SplitNoSeparator<Byte>(name, ':');
  }

  /** Everything after the letter of a breakpoint packet reaches the field
      parser, provided it does not begin with the letter again (the parser
      strips every leading copy). */
  lemma TrimBreakpointArgs(add: bool, args: Bytes)
    requires args == [] || args[0] != (if add then 'Z' else 'z')
    ensures var pkt := (if add then "Z" else "z") + args;
      PacketToCommand(pkt) == ParseBreakpoint(args, add)
  {
    var letter: Bytes := if add then "Z" else "z";
    if args != [] {
      DiffersAt(args, letter, 0);
    }
    TrimOnce(letter, args);
    ReachBreakpoint(letter + args, add);
  }

  /** A `Z`/`z` packet is a breakpoint command exactly when its type,
      address and size all parse; otherwise it is a `ParseIntError`. */
  lemma BreakpointPacketErrors(add: bool, d: Bytes, a: Bytes, n: Bytes)
    requires ',' !in d && ',' !in a && ',' !in n
    requires d == [] || d[0] != (if add then 'Z' else 'z')
    ensures var r := PacketToCommand((if add then "Z" else "z") + (d + "," + a + "," + n));
      && (r.Ok? <==> BreakPointTypeFromStr(d).Ok? && ParseU32(a).Ok? && ParseU32(n).Ok?)
      && (r.Err? ==> r.error == ParseIntError)
      && (BreakPointTypeFromStr(d).Ok? && ParseU32(a).Ok? && ParseU32(n).Ok? ==>
          r == Ok(Breakpoint(add, BreakPointTypeFromStr(d).value, ParseU32(a).value, ParseU32(n).value)))
  {
    TrimBreakpointArgs(add, d + "," + a + "," + n);
    BreakpointFieldErrors(d, a, n, add);
  }

  /** A `Z`/`z` packet that stops after a good type, or after a good type
      and address, panics; a bad field before the gap is a `ParseIntError`. */
  lemma BreakpointPacketMissingSize(add: bool, d: Bytes, a: Bytes)
    requires ',' !in d && ',' !in a
    requires d == [] || d[0] != (if add then 'Z' else 'z')
    ensures PacketToCommand((if add then "Z" else "z") + (d + "," + a)) ==
      if BreakPointTypeFromStr(d).Ok? && ParseU32(a).Ok? then Err(Panic) else Err(ParseIntError)
  {
    TrimBreakpointArgs(add, d + "," + a);
    BreakpointMissingFields(d, a, add);
  }

  lemma BreakpointPacketMissingAddress(add: bool, d: Bytes)
    requires ',' !in d
    requires d == [] || d[0] != (if add then 'Z' else 'z')
    ensures PacketToCommand((if add then "Z" else "z") + d) ==
      if BreakPointTypeFromStr(d).Ok? then Err(Panic) else Err(ParseIntError)
  {
    TrimBreakpointArgs(add, d);
    BreakpointMissingFields(d, [], add);
  }

  /** A type digit beyond 4 is refused before the numbers are looked at. */
  lemma UnknownBreakpointType(add: bool, a: Bytes, n: Bytes)
    requires ',' !in a && ',' !in n
    ensures PacketToCommand((if add then "Z" else "z") + ("5" + "," + a + "," + n)) == Err(ParseIntError)
  {
    BreakpointPacketErrors(add, "5", a, n);
  }

  /** Everything after the `m` of a memory read reaches the field parser
      unless it begins with another `m`. */
  lemma TrimReadMemoryArgs(args: Bytes)
    requires args == [] || args[0] != 'm'
    ensures PacketToCommand("m" + args) == ParseReadMemory(args)
  {
    if args != [] {
      DiffersAt(args, "m", 0);
    }
    TrimOnce("m", args);
    ReachReadMemory("m" + args);
  }

  /** An `m` packet reads memory exactly when its address and length parse. */
  lemma ReadMemoryPacketErrors(a: Bytes, n: Bytes)
    requires ',' !in a && ',' !in n
    requires a == [] || a[0] != 'm'
    ensures var r := PacketToCommand("m" + (a + "," + n));
      && (r.Ok? <==> ParseU32(a).Ok? && ParseU32(n).Ok?)
      && (r.Err? ==> r.error == ParseIntError)
      && (ParseU32(a).Ok? && ParseU32(n).Ok? ==> r == Ok(ReadMemory(ParseU32(a).value, ParseU32(n).value)))
  {
    TrimReadMemoryArgs(a + "," + n);
    ReadMemoryFieldErrors(a, n);
  }

  /** An `m` packet with a good address and no length panics. */
  lemma ReadMemoryPacketMissingLength(a: Bytes)
    requires ',' !in a
    requires a == [] || a[0] != 'm'
    ensures PacketToCommand("m" + a) == if ParseU32(a).Ok? then Err(Panic) else Err(ParseIntError)
  {
    TrimReadMemoryArgs(a);
    ReadMemoryFieldErrors(a, []);
  }

  /** Everything after the thread-list prefix reaches the field parser
      unless it begins with a `q`. */
  lemma TrimReadThreadsArgs(args: Bytes)
    requires args == [] || args[0] != 'q'
    ensures PacketToCommand("qXfer:threads:read::" + args) == ParseReadThreads(args)
  {
    if args != [] {
      DiffersAt(args, "qXfer:threads:read::", 0);
    }
    PrefixThenRest("qXfer:threads:read::", args);
    TrimOnce("qXfer:threads:read::", args);
    ReachReadThreads("qXfer:threads:read::" + args);
  }

  /** A thread-list read parses exactly when its offset and length do. */
  lemma ReadThreadsPacketErrors(off: Bytes, len: Bytes)
    requires ',' !in off && ',' !in len
    requires off == [] || off[0] != 'q'
    ensures var r := PacketToCommand("qXfer:threads:read::" + (off + "," + len));
      && (r.Ok? <==> ParseU32(off).Ok? && ParseU32(len).Ok?)
      && (r.Err? ==> r.error == ParseIntError)
      && (ParseU32(off).Ok? && ParseU32(len).Ok? ==> r == Ok(ReadThreads(ParseU32(off).value, ParseU32(len).value)))
  {
    TrimReadThreadsArgs(off + "," + len);
    ReadThreadsFieldErrors(off, len);
  }

  /** A thread-list read with a good offset and no length panics. */
  lemma ReadThreadsPacketMissingLength(off: Bytes)
    requires ',' !in off
    requires off == [] || off[0] != 'q'
    ensures PacketToCommand("qXfer:threads:read::" + off) ==
      if ParseU32(off).Ok? then Err(Panic) else Err(ParseIntError)
  {
    TrimReadThreadsArgs(off);
    ReadThreadsFieldErrors(off, []);
  }

  /** Everything after the target-description prefix reaches the field
      parser when it holds no `:` before its own separator. */
  lemma TrimReadFeatureArgs(name: Bytes, nums: Bytes)
    requires ':' !in name && ':' !in nums
    ensures PacketToCommand("qXfer:features:read:" + (name + ":" + nums)) ==
      ParseReadFeature(name + ":" + nums)
  {
    FeatureArgsNotPrefixed(name, nums);
    PrefixThenRest("qXfer:features:read:", name + ":" + nums);
    TrimOnce("qXfer:features:read:", name + ":" + nums);
    ReachReadFeature("qXfer:features:read:" + (name + ":" + nums));
  }

  /** A target-description read parses exactly when its offset and length
      do; the name is taken as it stands. */
  lemma ReadFeaturePacketErrors(name: Bytes, off: Bytes, len: Bytes)
    requires ':' !in name && ':' !in off && ':' !in len && ',' !in off && ',' !in len
    ensures var r := PacketToCommand("qXfer:features:read:" + (name + ":" + (off + "," + len)));
      && (r.Ok? <==> ParseU32(off).Ok? && ParseU32(len).Ok?)
      && (r.Err? ==> r.error == ParseIntError)
      && (ParseU32(off).Ok? && ParseU32(len).Ok? ==> r == Ok(ReadFeature(name, ParseU32(off).value, ParseU32(len).value)))
  {
    TrimReadFeatureArgs(name, off + "," + len);
    assert name + ":" + (off + "," + len) == name + ":" + off + "," + len;
    ReadFeatureFieldErrors(name, off, len);
  }

  /** A target-description read with a good offset and no length panics,
      and so does one with a name and nothing after it. */
  lemma ReadFeaturePacketMissingFields(name: Bytes, off: Bytes)
    requires ':' !in name && ':' !in off && ',' !in off
    ensures PacketToCommand("qXfer:features:read:" + (name + ":" + off)) ==
      if ParseU32(off).Ok? then Err(Panic) else Err(ParseIntError)
  {
    TrimReadFeatureArgs(name, off);
    ReadFeatureFieldErrors(name, off, []);
  }

  lemma ReadFeaturePacketNameOnly(name: Bytes)
    requires ':' !in name
    ensures PacketToCommand("qXfer:features:read:" + name) == Err(Panic)
  {
    var prefix: Bytes := "qXfer:features:read:";
    if |name| > 5 {
      DiffersAt(name, prefix, 5);
    }
    PrefixThenRest(prefix, name);
    TrimOnce(prefix, name);
    ReachReadFeature(prefix + name);
    ReadFeatureFieldErrors(name, [], []);
  }
}
