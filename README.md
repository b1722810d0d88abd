# GDB remote stub of the USB bridge, modelled in Dafny

The USB bridge tool contains a small GDB server (`usb/src/gdb.rs`). A
debugger connects over TCP and speaks the GDB Remote Serial Protocol. The
server reads one packet at a time and parses it into a command. It answers
from fixed texts, or by calling the RISC-V CPU behind the bridge.

This project models that server:

- **Wire** (`wire.dfy`): bytes as characters below 256, the fixed-width
  integer types, the error kinds, hexadecimal renderings (`{:02x}`,
  `{:08x}`, and the client's rendering of a number in hex), the byte swap of a word, and the wrapping `u8` checksum.
- **Text** (`text.dfy`): the Rust string operations the parser relies on.
  These are `starts_with`, `trim_start_matches` (which strips every leading
  copy, not just one), `split`, and `from_str_radix(_, 16)` for unsigned
  types and for `i32`.
- **Commands** (`commands.dfy`): the command type, `BreakPointType::from_str`,
  and `packet_to_command` as a pure function. Its tests run in the order the
  code applies them. A field the code indexes but the payload lacks is a
  Rust panic, modelled as `Err(Panic)`. The `qRcmd` hex decoder is also a
  method with its own loop.
- **Client** (`client.dfy`): the payload a debugger sends for each command.
  It proves that the parser reads every such payload back as that command.
- **Malformed** (`malformed.dfy`): which malformed payloads the parser
  refuses, and with which error. Fields are read left to right; the first
  that is not a number gives `ParseIntError`; a field missing after good ones
  is a panic. Arguments that begin with the command's prefix again lose that
  copy too, since `trim_start_matches` strips every leading copy.
- **Target** (`target.dfy`): the CPU as an object that keeps a log of the
  calls made on it. Each call may fail. Its answers come from an oracle over
  that log.
- **Framing** (`framing.dfy`): the `$payload#hh` frame and the receive state
  machine of `get_command` as recursive functions. These cover skipping noise,
  the interrupt byte, collecting the payload, the overrun of the 16384-byte
  buffer and the acknowledgement.
- **Transfer** (`transfer.dfy`): the `qXfer` window of `gdb_send_file` with
  its `m`/`l` marker. A client that follows the markers reassembles the whole
  document.
- **Dispatch** (`dispatch.dfy`): what `process` does with each command. That
  is the reply payload, the new session flags (`no_ack_mode`, `is_alive`,
  `last_signal`) and the CPU calls it makes.
- **Server** (`server.dfy`): the `GdbServer` class. Its fields are the
  session flags plus the connection, which is the unread input and the
  written output. Its methods follow the source loop by loop. These are
  `gdb_send` over a 16388-byte array, `gdb_send_u32`, `gdb_send_file`,
  `get_command` over a 16384-byte array, and `process`. Each method is proved
  against the functions above.

The model follows the code in these places where it departs from usual RSP
practice:

- A 0x03 byte inside a packet is payload. Only a 0x03 before any `$` is an
  interrupt.
- The `qXfer:features:read:` file name is the first `:`-separated field,
  not the text before the last `:`.
- `c` and `s` send no reply. Only `vCont;s…` and an interrupt send a stop
  reply after the CPU call.
- A memory reply lists each word's bytes least significant byte first on a
  little-endian host. This is because the word is written big-endian and read
  back in host order. The reply is not the word's big-endian rendering.
- A `p` packet always fails with a parse error. The code trims `r`, not `p`,
  so the number it parses still begins with `p` (`Commands.RegisterReadAlwaysFails`).

## Model

| member | source | states |
|---|---|---|
| Wire.Hex2 | usb/src/gdb.rs:453-454 | `{:02x}` gives exactly two hex digits whose value is the byte |
| Wire.HexDigit | usb/src/gdb.rs:453 | a digit below 16 is a lower-case hex digit whose value is that number |
| Wire.Nybble | usb/src/gdb.rs:239-247 | a hex digit's value is below 16, and any other character counts as 0 |
| Wire.Hex8 | usb/src/gdb.rs:389 | `{:08x}` gives exactly eight characters |
| Wire.Hex8Value | usb/src/gdb.rs:389 | the eight characters are hex digits that denote the word |
| Wire.HexOf | usb/src/gdb.rs:210 | the client-side hex rendering of a number, which the parse at line 210 inverts, has at least one character, all hex digits |
| Wire.HexOfValue | usb/src/gdb.rs:210 | the digits of the client-side rendering, which the parse at line 210 reads, denote the number |
| Wire.BytesOfFromBytes | usb/src/gdb.rs:438-440 | a word assembled from four bytes yields those bytes back |
| Wire.FromBytesOf | usb/src/gdb.rs:438-440 | a word is determined by its four bytes |
| Wire.Hex8ByteSwap | usb/src/gdb.rs:438-440 | the eight digits of a byte-swapped word list its bytes least significant first |
| Wire.ByteSwap | usb/src/gdb.rs:438-440 | the word whose bytes are those of the argument in reverse order; `Hex8ByteSwap` and `Server.NativeRead` prove what it is |
| Wire.ChecksumSnoc | usb/src/gdb.rs:355 | each payload byte adds its value to the checksum with wrap-around at 256 |
| Wire.Checksum | usb/src/gdb.rs:449-452 | the wrapping `u8` sum of the payload bytes, one byte at a time; `ChecksumIsSumMod256` proves it is the byte sum modulo 256 |
| Wire.ChecksumIsSumMod256 | usb/src/gdb.rs:449-452 | the wrapping `u8` checksum equals the byte sum modulo 256 |
| Wire.HexEncode | usb/src/gdb.rs:233-257 | the client's hex text of a monitor command has two hex digits per byte |
| Text.TrimStartMatches | usb/src/gdb.rs:207 | what is left no longer starts with the pattern |
| Text.TrimIsSuffix | usb/src/gdb.rs:207 | what is left is a tail of the text |
| Text.TrimStripsEveryCopy | usb/src/gdb.rs:220 | every leading copy of the pattern is stripped, and the rest is kept whole |
| Text.Split | usb/src/gdb.rs:208 | a split has at least one piece |
| Text.SplitPiecesLackSeparator | usb/src/gdb.rs:208 | no piece holds the separator |
| Text.JoinSplit | usb/src/gdb.rs:208 | joining the pieces with the separator gives the text back |
| Text.SplitJoin | usb/src/gdb.rs:208 | splitting the join of separator-free pieces gives the pieces back |
| Text.ParseHexUnsigned | usb/src/gdb.rs:210 | a parsed value fits the type and comes from a non-empty field without a minus sign |
| Text.ParseHexI32 | usb/src/gdb.rs:281-284 | a negative thread id comes only from text starting with `-` |
| Text.ParseHexOf | usb/src/gdb.rs:210 | parsing the client-side hex rendering of a value that fits gives the value |
| Text.ParseHexRejects | usb/src/gdb.rs:210-211 | an empty field, a non-digit or a value too large fails to parse |
| Text.ParseSignedHexOf | usb/src/gdb.rs:281-284 | a signed thread id written with a `-` and its magnitude parses back |
| Commands.BreakPointTypeFromStr | usb/src/gdb.rs:72-81 | only the five one-digit texts succeed, each naming its own type; anything else is a parse error |
| Commands.BreakPointTypeRoundTrip | usb/src/gdb.rs:72-81 | each type's digit parses back to that type |
| Commands.ParseU32 | usb/src/gdb.rs:56-59 | a field that is not a `u32` fails with `ParseIntError` |
| Commands.HexPairs | usb/src/gdb.rs:238-254 | the decoded text has half as many bytes as there are digits |
| Commands.HexPairsAt | usb/src/gdb.rs:238-254 | byte `i` comes from digits `2i` and `2i+1` |
| Commands.HexPairsDropsOddDigit | usb/src/gdb.rs:248-253 | an odd trailing digit is dropped |
| Commands.HexPairsOfHexEncode | usb/src/gdb.rs:233-257 | decoding the client's hex text gives the monitor command back |
| Commands.DecodeMonitorHex | usb/src/gdb.rs:236-254 | the nybble-accumulator loop computes the pairwise decoding |
| Commands.ParseReadFeature | usb/src/gdb.rs:206-212 | a failure is a parse error or a missing field; the name never holds `:` |
| Commands.ParseReadThreads | usb/src/gdb.rs:213-218 | a failure is a parse error or a missing field; success is a `ReadThreads` |
| Commands.ParseBreakpoint | usb/src/gdb.rs:219-232 | a failure is a parse error or a missing field; `Z` adds and `z` removes |
| Commands.ParseReadMemory | usb/src/gdb.rs:264-269 | a failure is a parse error or a missing field; success is a `ReadMemory` |
| Malformed.BreakpointFieldErrors | usb/src/gdb.rs:219-232 | type, address and size parse to a breakpoint exactly when each one does; otherwise the result is `ParseIntError` |
| Malformed.BreakpointMissingFields | usb/src/gdb.rs:219-232 | a good type without an address, or a good type and address without a size, panics; a bad field before the gap is `ParseIntError` |
| Malformed.ReadMemoryFieldErrors | usb/src/gdb.rs:264-269 | address and length parse to a read exactly when both do, else `ParseIntError`; a lone good address panics |
| Malformed.ReadThreadsFieldErrors | usb/src/gdb.rs:213-218 | offset and length parse exactly when both do, else `ParseIntError`; a lone good offset panics |
| Malformed.ReadFeatureFieldErrors | usb/src/gdb.rs:206-212 | name, offset and length parse exactly when both numbers do, else `ParseIntError`; a missing length or a name alone panics |
| Malformed.TrimBreakpointArgs | usb/src/gdb.rs:219-232 | what follows `Z`/`z` reaches the field parser whole when it does not begin with the letter again |
| Malformed.BreakpointPacketErrors | usb/src/gdb.rs:219-232 | a `Z`/`z` packet gives its breakpoint exactly when all three fields parse, and `ParseIntError` otherwise |
| Malformed.BreakpointPacketMissingSize | usb/src/gdb.rs:219-232 | a `Z`/`z` packet without a size panics unless an earlier field is bad |
| Malformed.BreakpointPacketMissingAddress | usb/src/gdb.rs:219-232 | a `Z`/`z` packet with only a type panics when the type is good and is `ParseIntError` otherwise |
| Malformed.UnknownBreakpointType | usb/src/gdb.rs:72-81 | a breakpoint of type 5 is `ParseIntError` whatever address and size follow |
| Malformed.TrimReadMemoryArgs | usb/src/gdb.rs:264-269 | what follows `m` reaches the field parser whole when it does not begin with `m` again |
| Malformed.ReadMemoryPacketErrors | usb/src/gdb.rs:264-269 | an `m` packet reads memory exactly when address and length parse, and is `ParseIntError` otherwise |
| Malformed.ReadMemoryPacketMissingLength | usb/src/gdb.rs:264-269 | an `m` packet with a good address and no length panics |
| Malformed.TrimReadThreadsArgs | usb/src/gdb.rs:213-218 | what follows the thread-list prefix reaches the field parser whole when it does not begin with `q` |
| Malformed.ReadThreadsPacketErrors | usb/src/gdb.rs:213-218 | a thread-list read parses exactly when offset and length do, and is `ParseIntError` otherwise |
| Malformed.ReadThreadsPacketMissingLength | usb/src/gdb.rs:213-218 | a thread-list read with a good offset and no length panics |
| Malformed.TrimReadFeatureArgs | usb/src/gdb.rs:206-212 | what follows the target-description prefix reaches the field parser whole when the name holds no `:` |
| Malformed.ReadFeaturePacketErrors | usb/src/gdb.rs:206-212 | a target-description read parses exactly when offset and length do, and is `ParseIntError` otherwise |
| Malformed.ReadFeaturePacketMissingFields | usb/src/gdb.rs:206-212 | a target-description read with a good offset and no length panics |
| Malformed.ReadFeaturePacketNameOnly | usb/src/gdb.rs:206-212 | a target-description read with a name and nothing after it panics |
| Commands.PacketToCommand | usb/src/gdb.rs:195-308 | errors are only parse errors or panics; it never yields `Interrupt` or `GetRegister`; unknown and `qSupported` packets are carried unchanged |
| Commands.RegisterNumberFails | usb/src/gdb.rs:270-274 | the register number is parsed from text still starting with `p` and fails |
| Commands.RegisterReadAlwaysFails | usb/src/gdb.rs:270-274 | every `p` packet fails with `ParseIntError` |
| Commands.UnknownExactlyWhenUnrecognised | usb/src/gdb.rs:198-306 | a packet is unknown exactly when none of the tests matches it, and is then carried unchanged |
| Commands.Classify | usb/src/gdb.rs:198-307 | the chain of tests, in the code's order, naming the branch a payload takes; `UnknownExactlyWhenUnrecognised`, `NoMatchExactlyWhenUnrecognised` and `Client.FieldlessOrigin` prove which payloads reach which branch |
| Client.ParseRender | usb/src/gdb.rs:195-308 | every command a client can send is parsed back as itself |
| Client.ParseRenderReadFeature | usb/src/gdb.rs:206-212 | `qXfer:features:read:name:off,len` parses to that name, offset and length |
| Client.ParseRenderReadThreads | usb/src/gdb.rs:213-218 | `qXfer:threads:read::off,len` parses to that offset and length |
| Client.ParseRenderAddBreakpoint | usb/src/gdb.rs:219-225 | `Ztype,addr,size` parses to that breakpoint |
| Client.ParseRenderRemoveBreakpoint | usb/src/gdb.rs:226-232 | `ztype,addr,size` parses to that breakpoint |
| Client.ParseRenderMonitor | usb/src/gdb.rs:233-257 | `qRcmd,` with hex text parses to the command text |
| Client.ParseRenderReadMemory | usb/src/gdb.rs:264-269 | `maddr,len` parses to that address and length |
| Client.ParseRenderSetThread | usb/src/gdb.rs:275-279 | `Hg` with a thread id parses to that id |
| Client.ParseRenderContinueThread | usb/src/gdb.rs:280-284 | `Hc` with a signed thread id parses to that id |
| Client.ParseRenderVCont | usb/src/gdb.rs:295-302 | `vCont;C…` and `vCont;s…` carry their arguments unchanged |
| Client.ParseRenderSupported | usb/src/gdb.rs:198-199 | a `qSupported` packet is carried unchanged |
| Client.ParseRenderUnknown | usb/src/gdb.rs:305-306 | an unrecognised packet is carried unchanged |
| Client.FieldlessOrigin | usb/src/gdb.rs:200-304 | a fieldless command is parsed from its own payload and no other |
| Target.Cpu.ReadMemory | usb/src/gdb.rs:398 | a memory read joins the call log and returns the CPU's word or its error |
| Target.Cpu.Control | usb/src/gdb.rs:403-419 | a resume, step or halt joins the call log and returns the CPU's status |
| Target.Cpu.Document | usb/src/gdb.rs:414-416 | a feature or thread-list fetch joins the call log and returns the document or an error |
| Framing.FrameShape | usb/src/gdb.rs:445-458 | a frame is `$`, the payload, `#` and two lower-case hex digits denoting the byte sum modulo 256 |
| Framing.Frame | usb/src/gdb.rs:445-458 | `$`, the payload, `#` and the checksum digits; `FrameShape` proves its layout and `ReceiveFrame` that the receiver reads it back |
| Framing.CollectEvents | usb/src/gdb.rs:326-357 | once `$` is seen, a 0x03 is payload and never an interrupt |
| Framing.CollectPayload | usb/src/gdb.rs:352-356 | bytes other than `#` join the payload in order while it fits |
| Framing.CollectEnd | usb/src/gdb.rs:332-350 | `#` and two bytes end the packet with those bytes as the remote checksum |
| Framing.SkipNoise | usb/src/gdb.rs:360-363 | bytes other than `$` and 0x03 before a packet are skipped |
| Framing.InterruptAfterNoise | usb/src/gdb.rs:362 | after any noise, a bare 0x03 is an interrupt and writes nothing |
| Framing.AwaitFrame | usb/src/gdb.rs:324-351 | a whole packet ends the wait with its payload and its checksum bytes |
| Framing.ReceivePacket | usb/src/gdb.rs:324-351 | a packet is parsed whether or not its checksum matches; the acknowledgement is `+`, `-` or nothing as the match and the mode decide; the rest of the input is untouched |
| Framing.ReceiveFrame | usb/src/gdb.rs:445-458 | what the server frames, a server reads back as the parsed payload with a positive acknowledgement |
| Framing.OverrunAfterFullBuffer | usb/src/gdb.rs:311-356 | a payload byte that finds all 16384 places taken overruns the buffer, even if `#` follows |
| Framing.AwaitStart | usb/src/gdb.rs:317-365 | the outer loop of `get_command`: noise is skipped, 0x03 is an interrupt, `$` starts a packet; `SkipNoise`, `InterruptAfterNoise` and `AwaitFrame` prove these |
| Framing.Collect | usb/src/gdb.rs:326-358 | the inner loop: bytes join the payload until `#`, and a full buffer overruns; `CollectPayload`, `CollectEnd`, `CollectEvents` and `OverrunAfterFullBuffer` prove these |
| Framing.Conclude | usb/src/gdb.rs:319-351 | a closed connection or an overrun is an error; an interrupt becomes the `Interrupt` command; a packet is acknowledged and parsed; `ReceivePacket` states the packet case |
| Framing.Receive | usb/src/gdb.rs:310-366 | `get_command` as a whole: the command, the bytes written and the input left; `ReceivePacket` and `ReceiveFrame` prove what it does with a packet, and `GdbServer.GetCommand` is proved against it |
| Transfer.WindowContents | usb/src/gdb.rs:468-488 | an offset past the end gets `l`; otherwise the reply is the bytes from the offset up to the length or the end, marked `m` exactly when the whole length was there |
| Transfer.WindowExamples | usb/src/gdb.rs:468-488 | concrete windows at the start, at the end and past the end of a document |
| Transfer.FetchReassembles | usb/src/gdb.rs:479-484 | a client that asks for windows until it gets `l` reassembles the document from the offset on |
| Transfer.Window | usb/src/gdb.rs:468-488 | the reply of `gdb_send_file` to an offset and length; `WindowContents` states its contents |
| Transfer.FetchFrom | usb/src/gdb.rs:479-484 | a client asking for consecutive windows until it gets `l`; `FetchReassembles` proves it collects the document |
| Dispatch.RegisterBlocks | usb/src/gdb.rs:386-392 | the `g` reply has one eight-character block per register |
| Dispatch.RegisterSlot | usb/src/gdb.rs:386-392 | register `i` of the `g` reply is the number `i` in eight hex digits |
| Dispatch.RegistersHex | usb/src/gdb.rs:386-392 | the `g` reply is all hex digits |
| Dispatch.WordsHexSlot | usb/src/gdb.rs:435-443 | word `k` of a memory reply lists the word's bytes least significant byte first |
| Dispatch.WordsHexDigits | usb/src/gdb.rs:435-443 | a memory reply is all hex digits |
| Dispatch.ReadMemoryWords | usb/src/gdb.rs:395-401 | a read the CPU answers in full makes one read per started word, in address order, and keeps the words in that order |
| Dispatch.ReadWordsErrors | usb/src/gdb.rs:395-401 | a read fails only when the CPU failed the last call or an address passed 32 bits; the log only grows |
| Dispatch.FeaturesListed | usb/src/gdb.rs:373 | the `qSupported` reply lists exactly the six features in order |
| Dispatch.SilentExactly | usb/src/gdb.rs:403-411 | `c`, `s`, `vCont;c` and `vCont;C…` make one resume or step call and send nothing; every other successful command replies |
| Dispatch.StopRepliesOnly | usb/src/gdb.rs:372-423 | only `?`, `vCont;s…` and an interrupt can reply with a packet starting with `S` |
| Dispatch.StopReplyContents | usb/src/gdb.rs:379-382 | `?` replies with the current signal, or `W00` once the target is gone; a step replies with the current signal; an interrupt replies with signal 2 |
| Dispatch.SessionEffects | usb/src/gdb.rs:372-423 | only an interrupt changes the signal (to 2, even if the halt fails); only `QStartNoAckMode` changes the mode, to on; nothing changes `is_alive` |
| Dispatch.CpuCalls | usb/src/gdb.rs:395-421 | the CPU log only grows; commands that do not use the CPU leave it unchanged; single-call commands add exactly their call |
| Dispatch.WordCountFits | usb/src/gdb.rs:395-401 | a memory reply fits the send buffer exactly when at most 8192 bytes were asked for |
| Dispatch.RespondReadMemory | usb/src/gdb.rs:395-401 | the outcome of `m` when every read is answered |
| Dispatch.MemoryReply | usb/src/gdb.rs:395-401 | a fully answered `m` has eight digits per word, word `k` being the word read at `addr + 4k` with its bytes least significant first, and fits exactly when at most 8192 bytes were asked for |
| Dispatch.Respond | usb/src/gdb.rs:372-423 | the `match` of `process`: outcome, session and CPU log per command; `SilentExactly`, `StopRepliesOnly`, `StopReplyContents`, `SessionEffects` and `CpuCalls` prove its properties |
| Dispatch.Reply | usb/src/gdb.rs:373-394 | the reply text of each command that needs no CPU call; `FeaturesListed` and the `g` lemmas state its contents |
| Dispatch.ReadWords | usb/src/gdb.rs:395-399 | the word-by-word read of `m`; `ReadMemoryWords` and `ReadWordsErrors` prove its results and its calls |
| Dispatch.WordsHex | usb/src/gdb.rs:435-442 | the text of `gdb_send_u32`, eight digits per swapped word; `WordsHexSlot` and `WordsHexDigits` prove its contents |
| Server.RegisterList | usb/src/gdb.rs:386-392 | the loop over registers 0 to 32 builds the `g` reply |
| Server.NativeRead | usb/src/gdb.rs:438-440 | reading the four big-endian bytes of a word least significant byte first, as a little-endian host does, gives the byte-swapped word |
| Server.WordList | usb/src/gdb.rs:435-442 | the loop of `gdb_send_u32` builds the memory reply text |
| Server.ReadMemoryValues | usb/src/gdb.rs:395-399 | the read loop of `m` makes the calls, and gives the result, of the word-by-word read |
| Server.BuildFrame | usb/src/gdb.rs:445-458 | the copy-and-sum loop over the 16388-byte buffer builds the frame, or panics when the payload overruns it |
| Server.FrameAt | usb/src/gdb.rs:448-458 | a buffer holding `$`, the payload, `#` and the digits, place by place, is the frame |
| Server.GdbServer.constructor | usb/src/gdb.rs:187-192 | a new session has acknowledgements on, the target alive and signal 0 |
| Server.GdbServer.ReadByte | usb/src/gdb.rs:318-321 | a one-byte read takes the next input byte, or reports a closed connection |
| Server.GdbServer.ReadChecksum | usb/src/gdb.rs:334 | the checksum read takes up to two bytes into a zeroed two-byte buffer |
| Server.GdbServer.SendAck | usb/src/gdb.rs:427-429 | writes `+` |
| Server.GdbServer.SendNak | usb/src/gdb.rs:431-433 | writes `-` |
| Server.GdbServer.Send | usb/src/gdb.rs:445-466 | writes the frame of a payload that fits, and panics without writing otherwise |
| Server.GdbServer.SendU32 | usb/src/gdb.rs:435-443 | writes the frame of the byte-swapped words, each in eight hex digits |
| Server.GdbServer.SendFile | usb/src/gdb.rs:468-488 | writes the frame of the requested window |
| Server.GdbServer.GetCommand | usb/src/gdb.rs:310-366 | returns, writes and consumes exactly what the receive state machine says |
| Server.GdbServer.ReadPacket | usb/src/gdb.rs:326-358 | the payload loop ends as the collecting function says, never with an interrupt, and acknowledges a framed packet |
| Server.GdbServer.Acknowledge | usb/src/gdb.rs:332-347 | reads the two checksum bytes and writes the acknowledgement they call for |
| Server.GdbServer.Process | usb/src/gdb.rs:368-425 | one cycle: a receive error ends it with nothing else changed; otherwise the command's outcome decides the status, the output, the session flags and the CPU log |
| Server.GdbServer.Execute | usb/src/gdb.rs:372-423 | each arm of the `match` has the outcome the dispatch function gives |
| Server.GdbServer.Answer | usb/src/gdb.rs:373-394 | the arms without a CPU call send their fixed or session-derived text; `QStartNoAckMode` turns no-ack mode on |
| Server.GdbServer.Inspect | usb/src/gdb.rs:395-401 | `m` reads the words, then sends them, unless a read fails |
| Server.GdbServer.Serve | usb/src/gdb.rs:413-416 | `qXfer` fetches the document, then sends the requested window, unless the fetch fails |
| Server.GdbServer.Run | usb/src/gdb.rs:403-421 | a resume, step or halt call, then the stop reply when one is due, unless the call fails |

## Left out

- Opening the TCP listener and accepting the connection in `new` are left
  out. The connection is modelled as the input still unread plus the output
  written so far. Logging with `println!` is left out too.
- I/O errors are not modelled. Reads return as many bytes as are available,
  and writes write everything. A closed connection shows up as input that
  has run out. A short read of the two checksum bytes leaves the missing
  bytes zero, as the zeroed buffer in the source does.
- The CPU and the bridge are opaque. `riscv.rs` and `bridge.rs` are not part
  of this model. Their answers come from an oracle over the call log, and
  every failure they report is the single error `CpuError`.
- `String::from_utf8_lossy` is the identity on the bytes. Payloads are
  handled as text whose characters are single bytes.
- The host is fixed as little-endian (`NativeEndian` in `gdb_send_u32`).
- How the CPU's word relates to the memory bytes at its address depends on
  `read_memory` in `riscv.rs`, which is not part of this model. The memory
  reply is proved to list each word least significant byte first; on a
  little-endian target that is memory order.
- A Rust panic is the error `Err(Panic)`. This covers an index out of
  bounds, an overrun of a fixed buffer, and `addr + offset` passing 32 bits,
  which overflows in a debug build.
