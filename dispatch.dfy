/** What `process` does with a command once it has one: the reply payload it
    sends (if any), the session flags it leaves behind and the calls it makes
    on the CPU.  The server class follows these functions step by step; the
    lemmas here say what they mean. */
module Dispatch {
  import opened Wire
  import opened Commands
  import opened Text
  import opened Transfer
  import opened Target

  /** The part of the server's state that outlives one command. */
  datatype Session = Session(noAckMode: bool, isAlive: bool, lastSignal: u8)

  /** The state of a fresh connection: acknowledgements on, target alive, no
      signal yet. */
  const Initial: Session := Session(false, true, 0)

  /** The features announced in answer to `qSupported`, ... */
  const FeatureList: seq<Bytes> :=
    ["PacketSize=3fff", "qXfer:memory-map:read+", "qXfer:features:read+", "qXfer:threads:read+",
     "QStartNoAckMode+", "vContSupported+"]

  /** ... separated by semicolons. */
  const Features: Bytes := Join(FeatureList, ';')

  /** A stop reply: `S` and the signal number as two lower-case hex digits. */
  function SignalReply(sig: u8): (r: Bytes)
    ensures |r| == 3 && r[0] == 'S' && r[1..] == Hex2(sig)
  {
    "S" + Hex2(sig)
  }

  /** Blocks of text glued together in order. */
  function Concat(blocks: seq<Bytes>): Bytes
  {
    if |blocks| == 0 then [] else Concat(blocks[..|blocks| - 1]) + blocks[|blocks| - 1]
  }

  /** Every block is eight characters long. */
  predicate Octets(blocks: seq<Bytes>)
  {
    forall j :: 0 <= j < |blocks| ==> |blocks[j]| == 8
  }

  /** The registers of the `g` reply: the first `n` register numbers, each as
      eight hex digits. */
  function RegisterBlocks(n: nat): (r: seq<Bytes>)
    requires n <= U32Bound
    ensures |r| == n && Octets(r)
  {
    seq(n, i requires 0 <= i < n => Hex8(i))
  }

  function RegisterReply(n: nat): Bytes
    requires n <= U32Bound
  {
    Concat(RegisterBlocks(n))
  }

  /** The memory words as `gdb_send_u32` renders them on a little-endian
      host: each word byte-swapped, then as eight hex digits. */
  function WordBlocks(ws: seq<u32>): (r: seq<Bytes>)
    ensures |r| == |ws| && Octets(r)
  {
    seq(|ws|, k requires 0 <= k < |ws| => Hex8(ByteSwap(ws[k])))
  }

  function WordsHex(ws: seq<u32>): Bytes
  {
    Concat(WordBlocks(ws))
  }

  /** The outcome of reading memory word by word. */
  datatype Reads = Reads(result: Result<seq<u32>>, calls: seq<CpuCall>)

  /** The loop of `m`: words at `addr + offset` for `offset` stepping by 4
      below `len`, appended to `acc`; an address past 32 bits is an overflow
      panic and a failed read ends the loop with the CPU's error. */
  function ReadWords(answer: Oracle, calls: seq<CpuCall>, addr: u32, len: u32, offset: nat, acc: seq<u32>): Reads
    decreases len - offset
  {
    if offset >= len then Reads(Ok(acc), calls)
    else if addr + offset >= U32Bound then Reads(Err(Panic), calls)
    else
      var c := calls + [ReadMemoryCall(addr + offset)];
      var a := answer(c);
      if a.failed then Reads(Err(CpuError), c)
      else ReadWords(answer, c, addr, len, offset + 4, acc + [a.word])
  }

  /** The number of reads `m` makes for a length: one per started word. */
  function WordCount(len: nat): nat
  {
    (len + 3) / 4
  }

  /** No word address of the request passes 32 bits. */
  predicate Fits(addr: nat, len: nat)
  {
    WordCount(len) == 0 || addr + 4 * (WordCount(len) - 1) < U32Bound
  }

  /** The read calls for the first `n` words from `addr`. */
  function ReadCalls(addr: nat, n: nat): (r: seq<CpuCall>)
    requires n == 0 || addr + 4 * (n - 1) < U32Bound
    ensures |r| == n
  {
    if n == 0 then [] else ReadCalls(addr, n - 1) + [ReadMemoryCall(addr + 4 * (n - 1))]
  }

  /** The CPU's answer to the read of word `k`, after the reads before it. */
  function Answered(answer: Oracle, calls: seq<CpuCall>, addr: nat, k: nat): CpuAnswer
    requires addr + 4 * k < U32Bound
  {
    answer(calls + ReadCalls(addr, k + 1))
  }

  /** What `process` does with a command: the new session, the CPU log and
      either the payload it sends (`None` when it sends nothing) or the error
      that stops it before it sends. */
  datatype Outcome = Outcome(session: Session, calls: seq<CpuCall>, result: Result<Option<Bytes>>)

  /** A command that only gets a fixed reply. */
  function Say(s: Session, calls: seq<CpuCall>, p: Bytes): Outcome
  {
    Outcome(s, calls, Ok(Some(p)))
  }

  /** A control call on the CPU, then `reply` unless it failed. */
  function Control(s: Session, answer: Oracle, calls: seq<CpuCall>, c: CpuCall, reply: Option<Bytes>): Outcome
  {
    var log := calls + [c];
    Outcome(s, log, if answer(log).failed then Err(CpuError) else Ok(reply))
  }

  /** A document fetched from the CPU, then the requested window of it. */
  function Fetch(s: Session, answer: Oracle, calls: seq<CpuCall>, c: CpuCall, offset: u32, len: u32): Outcome
  {
    var log := calls + [c];
    var a := answer(log);
    Outcome(s, log, if a.failed then Err(CpuError) else Ok(Some(Window(a.document, offset, len))))
  }

  /** The words read from memory, rendered, unless a read failed. */
  function Peek(s: Session, answer: Oracle, calls: seq<CpuCall>, addr: u32, len: u32): Outcome
  {
    var rd := ReadWords(answer, calls, addr, len, 0, []);
    Outcome(s, rd.calls, if rd.result.Err? then Err(rd.result.error) else Ok(Some(WordsHex(rd.result.value))))
  }

  /** The text `process` sends for a command that needs no CPU call. */
  function Reply(cmd: GdbCommand, s: Session): Bytes
    requires !UsesCpu(cmd)
  {
    match cmd
    case SupportedQueries(_) => Features
    case StartNoAckMode => "OK"
    case SetCurrentThread(_) => "OK"
    case ContinueThread(_) => "OK"
    case AddBreakpoint(_, _, _) => "OK"
    case RemoveBreakpoint(_, _, _) => "OK"
    case LastSignalPacket => if s.isAlive then SignalReply(s.lastSignal) else "W00"
    case GetThreadInfo => "l"
    case GetCurrentThreadId => "QC0"
    case CheckIsAttached => "1"
    case GetRegisters => RegisterReply(33)
    case GetRegister(_) => "12345678"
    case SymbolsReady => "OK"
    case VContQuery => "vCont;c;C;s;S"
    case GetOffsets => "Text=0;Data=0;Bss=0"
    case MonitorCommand(_) => "OK"
    case Unknown(_) => []
  }

  /** The `match` of `process`: what each command does. */
  function Respond(cmd: GdbCommand, s: Session, answer: Oracle, calls: seq<CpuCall>): Outcome
  {
    match cmd
    case ReadMemory(addr, len) => Peek(s, answer, calls, addr, len)
    case VContContinue => Control(s, answer, calls, ResumeCall, None)
    case VContContinueFromSignal(_) => Control(s, answer, calls, ResumeCall, None)
    case VContStepFromSignal(_) => Control(s, answer, calls, StepCall, Some(SignalReply(s.lastSignal)))
    case Continue => Control(s, answer, calls, ResumeCall, None)
    case Step => Control(s, answer, calls, StepCall, None)
    case ReadFeature(name, offset, len) => Fetch(s, answer, calls, FeatureCall(name), offset, len)
    case ReadThreads(offset, len) => Fetch(s, answer, calls, ThreadsCall, offset, len)
    case Interrupt => Control(s.(lastSignal := 2), answer, calls, HaltCall, Some(SignalReply(2)))
    case StartNoAckMode => Say(s.(noAckMode := true), calls, Reply(cmd, s))
    case _ => Say(s, calls, Reply(cmd, s))
  }

  /** `process` arm by arm: the arms that read memory or a document. */
  lemma RespondReads(cmd: GdbCommand, s: Session, answer: Oracle, calls: seq<CpuCall>)
    ensures cmd.ReadMemory? ==> Respond(cmd, s, answer, calls) == Peek(s, answer, calls, cmd.addr, cmd.length)
    ensures cmd.ReadFeature? ==>
      Respond(cmd, s, answer, calls) == Fetch(s, answer, calls, FeatureCall(cmd.filename), cmd.offset, cmd.len)
    ensures cmd.ReadThreads? ==> Respond(cmd, s, answer, calls) == Fetch(s, answer, calls, ThreadsCall, cmd.offset, cmd.len)
  {
  }

  /** The arms that resume, step or halt the CPU. */
  lemma RespondControls(cmd: GdbCommand, s: Session, answer: Oracle, calls: seq<CpuCall>)
    ensures Silent(cmd) ==>
      Respond(cmd, s, answer, calls) == Control(s, answer, calls, if cmd.Step? then StepCall else ResumeCall, None)
    ensures cmd.VContStepFromSignal? ==>
      Respond(cmd, s, answer, calls) == Control(s, answer, calls, StepCall, Some(SignalReply(s.lastSignal)))
    ensures cmd.Interrupt? ==>
      Respond(cmd, s, answer, calls) == Control(s.(lastSignal := 2), answer, calls, HaltCall, Some(SignalReply(2)))
  {
  }

  /** The arms that leave the CPU alone. */
  lemma RespondSays(cmd: GdbCommand, s: Session, answer: Oracle, calls: seq<CpuCall>)
    ensures !UsesCpu(cmd) ==>
      Respond(cmd, s, answer, calls) == Say(if cmd.StartNoAckMode? then s.(noAckMode := true) else s, calls, Reply(cmd, s))
  {
  }

  lemma Scale8(i: nat, m: nat)
    requires i < m
    ensures 8 * i + 8 <= 8 * m
  {
  }

  lemma SliceOfFront(a: Bytes, b: Bytes, i: nat, j: nat)
    requires i <= j <= |a|
    ensures (a + b)[i..j] == a[i..j]
  {
  }

  lemma SliceOfBack(a: Bytes, b: Bytes)
    ensures (a + b)[|a|..|a| + |b|] == b
  {
  }

  /** Eight-character blocks make eight characters each... */
  lemma {:induction false} ConcatLength(blocks: seq<Bytes>)
    requires Octets(blocks)
    ensures |Concat(blocks)| == 8 * |blocks|
    decreases |blocks|
  {
    if |blocks| > 0 {
      ConcatLength(blocks[..|blocks| - 1]);
    }
  }

  /** ... and block `i` sits at `8 * i`. */
  lemma {:induction false} ConcatSlot(blocks: seq<Bytes>, i: nat)
    requires Octets(blocks) && i < |blocks|
    ensures |Concat(blocks)| == 8 * |blocks|
    ensures Concat(blocks)[8 * i..8 * i + 8] == blocks[i]
    decreases |blocks|
  {
    var n := |blocks|;
    var front := blocks[..n - 1];
    var head, last := Concat(front), blocks[n - 1];
    assert Concat(blocks) == head + last;
    ConcatLength(blocks);
    ConcatLength(front);
    if i < n - 1 {
      ConcatSlot(front, i);
      Scale8(i, n - 1);
      SliceOfFront(head, last, 8 * i, 8 * i + 8);
    } else {
      SliceOfBack(head, last);
    }
  }

  /** Blocks of hex digits glue to hex digits. */
  lemma {:induction false} ConcatHex(blocks: seq<Bytes>)
    requires forall j :: 0 <= j < |blocks| ==> AllHex(blocks[j])
    ensures AllHex(Concat(blocks))
    decreases |blocks|
  {
    if |blocks| > 0 {
      ConcatHex(blocks[..|blocks| - 1]);
      AllHexAppend(Concat(blocks[..|blocks| - 1]), blocks[|blocks| - 1]);
    }
  }

  /** Register `i` of the `g` reply is the number `i` itself, in eight hex
      digits; the reply has nothing else. */
  lemma RegisterSlot(n: nat, i: nat)
    requires i < n <= U32Bound
    ensures |RegisterReply(n)| == 8 * n
    ensures RegisterReply(n)[8 * i..8 * i + 8] == Hex8(i)
    ensures HexValue(RegisterReply(n)[8 * i..8 * i + 8]) == i
  {
    ConcatSlot(RegisterBlocks(n), i);
    Hex8Value(i);
  }

  /** The `g` reply is all hex digits. */
  lemma RegistersHex(n: nat)
    requires n <= U32Bound
    ensures AllHex(RegisterReply(n))
  {
    var blocks := RegisterBlocks(n);
    forall j | 0 <= j < |blocks|
      ensures AllHex(blocks[j])
    {
      Hex8Value(j);
    }
    ConcatHex(blocks);
  }

  /** Word `k` of a memory reply lists the word's bytes in memory order, the
      byte at the lowest address first, each as two hex digits. */
  lemma WordsHexSlot(ws: seq<u32>, k: nat)
    requires k < |ws|
    ensures |WordsHex(ws)| == 8 * |ws|
    ensures WordsHex(ws)[8 * k..8 * k + 8] ==
      Hex2(ByteOf(ws[k], 0)) + Hex2(ByteOf(ws[k], 1)) + Hex2(ByteOf(ws[k], 2)) + Hex2(ByteOf(ws[k], 3))
  {
    ConcatSlot(WordBlocks(ws), k);
    Hex8ByteSwap(ws[k]);
  }

  /** A memory reply is all hex digits. */
  lemma WordsHexDigits(ws: seq<u32>)
    ensures AllHex(WordsHex(ws))
  {
    var blocks := WordBlocks(ws);
    forall j | 0 <= j < |blocks|
      ensures AllHex(blocks[j])
    {
      Hex8Value(ByteSwap(ws[j]));
    }
    ConcatHex(blocks);
  }

  /** The loop runs while the offset, a multiple of 4, is below the length:
      once per started word. */
  lemma WordCountSteps(len: nat, j: nat)
    ensures 4 * j < len <==> j < WordCount(len)
  {
  }

  /** One successful read: the word joins the accumulator and the loop goes
      on at the next offset. */
  lemma ReadWordsStep(answer: Oracle, calls: seq<CpuCall>, addr: u32, len: u32, offset: nat, acc: seq<u32>)
    requires offset < len && addr + offset < U32Bound
    requires !answer(calls + [ReadMemoryCall(addr + offset)]).failed
    ensures var c := calls + [ReadMemoryCall(addr + offset)];
      ReadWords(answer, calls, addr, len, offset, acc) == ReadWords(answer, c, addr, len, offset + 4, acc + [answer(c).word])
  {
  }

  /** The words the CPU answers to the first `n` reads. */
  function Words(answer: Oracle, calls: seq<CpuCall>, addr: nat, n: nat): (r: seq<u32>)
    requires n == 0 || addr + 4 * (n - 1) < U32Bound
    ensures |r| == n
  {
    if n == 0 then [] else Words(answer, calls, addr, n - 1) + [Answered(answer, calls, addr, n - 1).word]
  }

  /** Word `k` is the answer to the `k`-th read. */
  lemma {:induction false} WordsAt(answer: Oracle, calls: seq<CpuCall>, addr: nat, n: nat, k: nat)
    requires k < n && addr + 4 * (n - 1) < U32Bound
    ensures Words(answer, calls, addr, n)[k] == Answered(answer, calls, addr, k).word
  {
    if k < n - 1 {
      WordsAt(answer, calls, addr, n - 1, k);
    }
  }

  /** After `j` successful reads, the rest of the loop reads the remaining
      words, each at its address. */
  lemma {:induction false} ReadWordsFrom(answer: Oracle, calls: seq<CpuCall>, addr: u32, len: u32, j: nat)
    requires Fits(addr, len) && j <= WordCount(len)
    requires forall k :: j <= k < WordCount(len) ==> !Answered(answer, calls, addr, k).failed
    ensures ReadWords(answer, calls + ReadCalls(addr, j), addr, len, 4 * j, Words(answer, calls, addr, j))
      == Reads(Ok(Words(answer, calls, addr, WordCount(len))), calls + ReadCalls(addr, WordCount(len)))
    decreases WordCount(len) - j
  {
    var n := WordCount(len);
    WordCountSteps(len, j);
    if j < n {
      var before := calls + ReadCalls(addr, j);
      var c := calls + ReadCalls(addr, j + 1);
      assert c == before + [ReadMemoryCall(addr + 4 * j)];
      assert !Answered(answer, calls, addr, j).failed;
      assert Answered(answer, calls, addr, j) == answer(c);
      ReadWordsStep(answer, before, addr, len, 4 * j, Words(answer, calls, addr, j));
      ReadWordsFrom(answer, calls, addr, len, j + 1);
    }
  }

  /** A read of memory whose word addresses all fit, and where the CPU
      answers every read, makes one read per word, at `addr`, `addr + 4`, ...
      in this order, and replies with the words it was given. */
  lemma ReadMemoryWords(answer: Oracle, calls: seq<CpuCall>, addr: u32, len: u32)
    requires Fits(addr, len)
    requires forall k :: 0 <= k < WordCount(len) ==> !Answered(answer, calls, addr, k).failed
    ensures ReadWords(answer, calls, addr, len, 0, [])
      == Reads(Ok(Words(answer, calls, addr, WordCount(len))), calls + ReadCalls(addr, WordCount(len)))
  {
    assert calls + ReadCalls(addr, 0) == calls;
    ReadWordsFrom(answer, calls, addr, len, 0);
  }

  /** A read that fails does so because the CPU failed the last call it got
      or because a word address passed 32 bits; either way the log only
      grows, by reads. */
  lemma {:induction false} ReadWordsErrors(answer: Oracle, calls: seq<CpuCall>, addr: u32, len: u32, offset: nat, acc: seq<u32>)
    ensures var rd := ReadWords(answer, calls, addr, len, offset, acc);
      && |rd.calls| >= |calls| && rd.calls[..|calls|] == calls
      && (rd.result.Err? && rd.result.error == CpuError ==> |rd.calls| > |calls| && answer(rd.calls).failed)
      && (rd.result.Err? ==> rd.result.error == CpuError || rd.result.error == Panic)
      && (rd.result.Err? && rd.result.error == Panic ==> addr + len > U32Bound)
    decreases len - offset
  {
    if offset < len && addr + offset < U32Bound {
      var c := calls + [ReadMemoryCall(addr + offset)];
      if !answer(c).failed {
        ReadWordsErrors(answer, c, addr, len, offset + 4, acc + [answer(c).word]);
        var rd := ReadWords(answer, c, addr, len, offset + 4, acc + [answer(c).word]);
        assert rd.calls[..|calls|] == rd.calls[..|c|][..|calls|];
      }
    }
  }

  /** The `qSupported` reply lists exactly the six features, in order. */
  lemma FeaturesListed()
    ensures Split(Features, ';') == FeatureList
  {
    forall j | 0 <= j < |FeatureList|
      ensures ';' !in FeatureList[j]
    {
    }
    SplitJoin(FeatureList, ';');
  }

  /** A command that replies with a payload to send. */
  predicate Replies(o: Outcome)
  {
    o.result.Ok? && o.result.value.Some?
  }

  /** The commands that resume or step the target without a stop reply. */
  predicate Silent(cmd: GdbCommand)
  {
    cmd.Continue? || cmd.Step? || cmd.VContContinue? || cmd.VContContinueFromSignal?
  }

  /** `c`, `s`, `vCont;c` and `vCont;C...` make exactly one resume or step call
      and never send a reply; every other command that succeeds sends one. */
  lemma SilentExactly(cmd: GdbCommand, s: Session, answer: Oracle, calls: seq<CpuCall>)
    ensures var o := Respond(cmd, s, answer, calls);
      && (Silent(cmd) ==> !Replies(o) && o.calls == calls + [if cmd.Step? then StepCall else ResumeCall])
      && (o.result.Ok? && !Replies(o) ==> Silent(cmd))
  {
  }

  /** Only `?`, `vCont;s...` and an interrupt can reply with a stop packet:
      every other reply starts with another character. */
  lemma StopRepliesOnly(cmd: GdbCommand, s: Session, answer: Oracle, calls: seq<CpuCall>)
    ensures var o := Respond(cmd, s, answer, calls);
      Replies(o) && |o.result.value.value| > 0 && o.result.value.value[0] == 'S' ==>
        cmd.LastSignalPacket? || cmd.VContStepFromSignal? || cmd.Interrupt?
  {
    var o := Respond(cmd, s, answer, calls);
    if !UsesCpu(cmd) {
      RespondSays(cmd, s, answer, calls);
      ReplyInitials(cmd, s);
    } else if Replies(o) && |o.result.value.value| > 0 {
      var p := o.result.value.value;
      RespondReads(cmd, s, answer, calls);
      RespondControls(cmd, s, answer, calls);
      if cmd.ReadMemory? {
        WordsHexDigits(ReadWords(answer, calls, cmd.addr, cmd.length, 0, []).result.value);
        assert IsHexDigit(p[0]);
      } else if cmd.ReadFeature? {
        WindowContents(answer(calls + [FeatureCall(cmd.filename)]).document, cmd.offset, cmd.len);
      } else if cmd.ReadThreads? {
        WindowContents(answer(calls + [ThreadsCall]).document, cmd.offset, cmd.len);
      }
    }
  }

  /** Of the fixed replies, only the one to `?` can start with `S`. */
  lemma ReplyInitials(cmd: GdbCommand, s: Session)
    requires !UsesCpu(cmd)
    ensures |Reply(cmd, s)| > 0 && Reply(cmd, s)[0] == 'S' ==> cmd.LastSignalPacket?
  {
    var p := Reply(cmd, s);
    if |p| > 0 {
      match cmd
      case GetRegisters =>
        RegistersHex(33);
        assert IsHexDigit(p[0]);
      case SupportedQueries(_) =>
        assert p[0] == 'P';
      case _ =>
    }
  }

  /** The stop replies carry the current signal (2 after an interrupt); `?`
      says `W00` instead once the target is gone. */
  lemma StopReplyContents(cmd: GdbCommand, s: Session, answer: Oracle, calls: seq<CpuCall>)
    ensures var o := Respond(cmd, s, answer, calls);
      && (cmd.LastSignalPacket? ==> o.result == Ok(Some(if s.isAlive then SignalReply(s.lastSignal) else "W00")))
      && (cmd.VContStepFromSignal? && o.result.Ok? ==> o.result.value == Some(SignalReply(s.lastSignal)))
      && (cmd.Interrupt? && o.result.Ok? ==> o.result.value == Some(SignalReply(2)))
  {
  }

  /** Only an interrupt changes the signal, to 2, and it does so even when the
      halt fails; only `QStartNoAckMode` changes the acknowledgement mode, and
      only to on; nothing marks the target dead. */
  lemma SessionEffects(cmd: GdbCommand, s: Session, answer: Oracle, calls: seq<CpuCall>)
    ensures var o := Respond(cmd, s, answer, calls);
      && o.session.lastSignal == (if cmd.Interrupt? then 2 else s.lastSignal)
      && o.session.noAckMode == (s.noAckMode || cmd.StartNoAckMode?)
      && o.session.isAlive == s.isAlive
  {
  }

  /** The commands that call the CPU. */
  predicate UsesCpu(cmd: GdbCommand)
  {
    Silent(cmd) || cmd.ReadMemory? || cmd.VContStepFromSignal? || cmd.ReadFeature?
    || cmd.ReadThreads? || cmd.Interrupt?
  }

  /** The CPU log only grows; commands that do not use the CPU leave it as it
      is, and the single-call commands add exactly their call. */
  lemma CpuCalls(cmd: GdbCommand, s: Session, answer: Oracle, calls: seq<CpuCall>)
    ensures var o := Respond(cmd, s, answer, calls);
      && |o.calls| >= |calls| && o.calls[..|calls|] == calls
      && (!UsesCpu(cmd) ==> o.calls == calls)
      && (cmd.Interrupt? ==> o.calls == calls + [HaltCall])
      && (cmd.VContStepFromSignal? ==> o.calls == calls + [StepCall])
      && (cmd.ReadFeature? ==> o.calls == calls + [FeatureCall(cmd.filename)])
      && (cmd.ReadThreads? ==> o.calls == calls + [ThreadsCall])
  {
    if cmd.ReadMemory? {
      ReadWordsErrors(answer, calls, cmd.addr, cmd.length, 0, []);
    } else if UsesCpu(cmd) {
      RespondReads(cmd, s, answer, calls);
      RespondControls(cmd, s, answer, calls);
    } else {
      RespondSays(cmd, s, answer, calls);
    }
  }

  /** At most 2048 words, 8192 bytes, fit a reply frame. */
  lemma WordCountFits(len: nat)
    ensures 8 * WordCount(len) <= MaxPayload <==> len <= 8192
  {
  }

  /** The outcome of `m` when every read is answered. */
  lemma RespondReadMemory(s: Session, answer: Oracle, calls: seq<CpuCall>, addr: u32, len: u32)
    requires Fits(addr, len)
    requires forall i :: 0 <= i < WordCount(len) ==> !Answered(answer, calls, addr, i).failed
    ensures Respond(ReadMemory(addr, len), s, answer, calls)
      == Outcome(s, calls + ReadCalls(addr, WordCount(len)), Ok(Some(WordsHex(Words(answer, calls, addr, WordCount(len))))))
  {
    ReadMemoryWords(answer, calls, addr, len);
  }

  /** A read of memory that the CPU answers in full replies with eight digits
      per word, word `k` listing the bytes read at `addr + 4 * k` in memory
      order; the reply fits the send buffer exactly when at most 8192 bytes
      were asked for. */
  lemma MemoryReply(s: Session, answer: Oracle, calls: seq<CpuCall>, addr: u32, len: u32, k: nat)
    requires Fits(addr, len) && k < WordCount(len)
    requires forall i :: 0 <= i < WordCount(len) ==> !Answered(answer, calls, addr, i).failed
    ensures var o := Respond(ReadMemory(addr, len), s, answer, calls);
      && o.calls == calls + ReadCalls(addr, WordCount(len))
      && Replies(o) && |o.result.value.value| == 8 * WordCount(len)
      && (|o.result.value.value| <= MaxPayload <==> len <= 8192)
      && var w := Answered(answer, calls, addr, k).word;
         o.result.value.value[8 * k..8 * k + 8] ==
           Hex2(ByteOf(w, 0)) + Hex2(ByteOf(w, 1)) + Hex2(ByteOf(w, 2)) + Hex2(ByteOf(w, 3))
  {
    var n := WordCount(len);
    var ws := Words(answer, calls, addr, n);
    RespondReadMemory(s, answer, calls, addr, len);
    WordsHexSlot(ws, k);
    WordsAt(answer, calls, addr, n, k);
    WordCountFits(len);
  }
}
