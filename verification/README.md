# A verified model of the Minecraft handshake filter

The XDP program in `sniffer/` sits in front of a Minecraft server and lets a TCP connection's data
through only once that connection has opened with a valid Minecraft handshake. This project models the
program from raw packet bytes up to whole runs of its allow table, and proves what it guarantees.

## Layers

| module | models |
|---|---|
| `Wire` | bytes, big-endian fields, XDP actions, the bounds rule of `ptr_at` and `byte_at` |
| `BitOps`, `VarInt` | VarInts: what they are, what they are worth, how they are decoded and encoded; the masks, shifts and ors of the two reading loops on real bit-vectors |
| `HandshakeGrammar` | what a handshake frame is, as a grammar over bytes, independent of any parser |
| `Recogniser` | `ebpf/minecraft.rs`: offset-based reads bounded by the physical packet |
| `SliceParser`, `SliceMeaning`, `SliceStreaming` | `networking/parser.rs`, the exact meaning of each of its results, and what cutting or extending a buffer does to them |
| `Agreement`, `Encoding` | the two parsers against each other; the canonical encoding and its round trips |
| `SliceHeaders`, `EbpfHeaders` | `networking/net.rs` against `ebpf/networking/`: the header stacks and the refinement between them |
| `Flows` | the allow table over whole runs, with arbitrary evictions and failing inserts |
| `Filter` | `verdict` as a class that updates the table in place |
| `Datagram`, `Bytewise` | a TCP segment to the server as bytes and bits, with no parser involved; the whole filter against it, packet by packet and run by run |
| `Padding`, `EndToEnd`, `Fixtures` | guarantees about packets on the wire; the frame and handshake builders of the test suite |

Two things the program calls but does not contain are parameters: which byte strings are UTF-8
(`Utf8`), and which IP protocol numbers other than TCP have a name (`named`). Whether an insert finds room
and what the kernel evicts are inputs of a run, so every result about runs holds for every table policy.

`Filter.XdpFilter` carries its whole history as ghost state; `Valid` says that the table is the one the
history leads to, and `Verdict` returns the run's answer at the last index, so each lemma of `Flows`,
`Bytewise` and `EndToEnd` about runs applies to the running filter. `Bytewise.AnswerExactly` sums the
program up: the answer to every packet of every run, as a condition on bytes.

## Where code and documentation part

- `sniffer/tests/test_docker.py:21-23` says that a connection whose first data is not a handshake is dropped
  for its whole life. It is dropped exactly for as long as none of its data is a valid handshake
  (`Flows.BlockedExactlyUntilHandshake`, and `EndToEnd.BlockedExactlyUntilHandshake` on the wire);
  `Flows.AbsentExactlyUntilHandshake` says the same of any flow that is not in the table, evicted ones included;
  `Fixtures.GarbageThenHandshake` is a connection that is let through after an HTTP request was dropped.
- Padding can matter before the payload does. When the declared IP datagram is too short for a TCP header
  and the frame carries padding, `Ipv4Packet::try_parse` reads the ports out of the padding: alone the
  frame is aborted, padded it is passed or dropped (`Padding.PaddingReadAsPorts`).
  `Padding.PaddingIrrelevantExactly` gives the exact condition under which padding cannot matter.
- `MAX_HANDSHAKE_LEN` is described as the largest possible handshake body. That is so for canonical
  VarInts (`Encoding.CanonicalLength`); with redundant VarInt bytes a body can be longer, and then
  `parse_handshake` takes it and `check_handshake` does not (`Agreement.PaddedVarIntsDisagree`).
- `parse_handshake` documents `TrailingBytes` for bytes after an otherwise valid handshake, but counts them
  before it looks at the next state. `SliceMeaning.TrailingBytesExactly` says when it is reported,
  `SliceMeaning.TrailingBytesAsDocumented` that the documentation is right exactly when the state is 1 or 2,
  and `Encoding.BadStateHidesBehindTrailingBytes` gives a body with state 5. The documented `InvalidPort`
  cannot occur (`SliceMeaning.DiagnosticsExactly`).
- The comments on the string and version tests at `sniffer/mc-sniffer-common/src/networking/parser.rs:242-254`
  and `sniffer/mc-sniffer-common/src/ebpf/networking/ipv4.rs:225-228` describe defects the code no longer has.

## Model

| member | source | states |
|---|---|---|
| VarInt.DecodeComplete | sniffer/mc-sniffer-common/src/networking/parser.rs:34-57 | a VarInt, canonical or not, is read back whole with its value mod 2^32, whatever bytes follow it |
| VarInt.DecodeSound | sniffer/mc-sniffer-common/src/networking/parser.rs:34-57 | whatever was read is a VarInt of at most five bytes and the number returned is the sum of its seven-bit groups mod 2^32 |
| VarInt.DecodeCut | sniffer/mc-sniffer-common/src/networking/parser.rs:52-54 | every proper prefix of a VarInt reads as truncated: VarInts are prefix-free |
| VarInt.DecodeDecided | sniffer/mc-sniffer-common/src/networking/parser.rs:38-54 | appending bytes can only change a truncated reading |
| VarInt.RoundTrip | sniffer/mc-sniffer-common/src/ebpf/minecraft.rs:173-182 | every 32-bit value survives encoding and decoding, with any bytes following, in at most five bytes |
| VarInt.OrStep | sniffer/mc-sniffer-common/src/ebpf/minecraft.rs:56-62 | or-ing a shifted group into the accumulator is adding its digit, and the top three bits of a fifth group are lost |
| HandshakeGrammar.FieldsUnique | sniffer/mc-sniffer-common/src/ebpf/minecraft.rs:92-122 | at most one well-formed body can open a byte string |
| HandshakeGrammar.FrameUnique | sniffer/mc-sniffer-common/src/ebpf/minecraft.rs:83-122 | the frame grammar is unambiguous on every stream |
| HandshakeGrammar.PacketJudged | sniffer/mc-sniffer-common/src/ebpf/minecraft.rs:83-127 | a stream opening with a well-formed packet is recognised exactly when that packet respects ID, state and size limits |
| HandshakeGrammar.RecognisedExactlyWhenComplete | sniffer/mc-sniffer-common/src/ebpf/minecraft.rs:83-90 | cutting a stream that opens with a frame anywhere, even inside the length prefix, leaves it recognised if and only if the whole frame is still there |
| HandshakeGrammar.StartsWithMonotone | sniffer/mc-sniffer-common/src/ebpf/minecraft.rs:13-14 | data after the frame never takes recognition back |
| Recogniser.ReadVarInt | sniffer/mc-sniffer-common/src/ebpf/minecraft.rs:55-65 | the bounded loop over packet memory returns the closed-form value and size, drops on everything else, and reads no byte past the VarInt |
| Recogniser.CheckHandshake | sniffer/mc-sniffer-common/src/ebpf/minecraft.rs:78-128 | sound and complete: accepts if and only if the declared payload opens with a frame of the grammar, for any offset, length and packet; every rejection is the drop action; an accepting run reads only the frame, and no run reads past a fixed distance or the packet |
| Recogniser.PaddingNeverCompletes | sniffer/mc-sniffer-common/src/ebpf/minecraft.rs:314-323 | a truncated frame stays unrecognised whatever bytes physically follow it |
| Recogniser.MaskLength | sniffer/mc-sniffer-common/src/ebpf/minecraft.rs:108-112 | the mask bounds every 32-bit length and does not change one that passed the check |
| SliceParser.ReadVarInt | sniffer/mc-sniffer-common/src/networking/parser.rs:34-57 | the signed loop returns the two's complement reading of the same closed form, and tells truncated from overlong |
| SliceParser.ParseHandshake | sniffer/mc-sniffer-common/src/networking/parser.rs:88-131 | the step-by-step parser computes the field-by-field meaning that the lemmas of SliceMeaning characterise |
| SliceMeaning.ParsedIsDiagnosis | sniffer/mc-sniffer-common/src/networking/parser.rs:88-131 | every well-formed body, whatever follows it, gets exactly one stated result: wrong ID, bad UTF-8, count of trailing bytes, the fields, or bad state, in that order |
| SliceMeaning.ParsedExactly | sniffer/mc-sniffer-common/src/networking/parser.rs:88-131 | a body parses to a handshake if and only if it spells that handshake in the grammar, with UTF-8 address and state 1 or 2 |
| SliceStreaming.CutDiagnosis | sniffer/mc-sniffer-common/src/networking/parser.rs:90-113 | a well-formed body cut after any number of bytes is WrongPacketId if its ID is there and wrong, else InvalidUtf8 if its address is there whole and bad, else UnexpectedEof |
| SliceStreaming.EofExactly | sniffer/mc-sniffer-common/src/networking/parser.rs:88-131 | UnexpectedEof is reported if and only if the buffer properly begins some well-formed body, with ID 0 and a UTF-8 address as far as they are already there |
| SliceStreaming.ExactDiagnostics | sniffer/mc-sniffer-common/src/networking/parser.rs:34-131 | handshake bodies are prefix-free: every proper prefix of a parsed body is UnexpectedEof, and k extra bytes are TrailingBytes(k) |
| SliceMeaning.DiagnosticsExactly | sniffer/mc-sniffer-common/src/networking/parser.rs:77-131 | every result but UnexpectedEof is returned if and only if the buffer holds the fault it names behind sound earlier fields, overlong VarInts in all four places and negative lengths included; UnexpectedEof is exactly the rest, and InvalidPort never occurs |
| SliceMeaning.TrailingBytesExactly | sniffer/mc-sniffer-common/src/networking/parser.rs:112-117 | TrailingBytes(k) is reported if and only if the buffer is a body with packet ID 0 and UTF-8 address, in any state, and k > 0 bytes more |
| SliceMeaning.TrailingBytesAsDocumented | sniffer/mc-sniffer-common/src/networking/parser.rs:85-87 | the documented condition, an otherwise valid handshake before the bytes, is the code's if and only if the body before them has state 1 or 2 |
| SliceStreaming.OnlyEofIsUndecided | sniffer/mc-sniffer-common/src/networking/parser.rs:88-131 | every result but UnexpectedEof is final under more data, up to the trailing-byte count |
| SliceStreaming.EofIsNeverFinal | sniffer/mc-sniffer-common/src/networking/parser.rs:52-68 | no buffer of 2^31 + 22 bytes or more is reported truncated, so enough data always decides |
| Agreement.AcceptedThenParsed | sniffer/mc-sniffer-common/src/ebpf/minecraft.rs:10-17 | whatever the recogniser accepts, the slice parser parses, or faults only for bad UTF-8 or for the transfer state 3 |
| Agreement.ParsedThenAccepted | sniffer/mc-sniffer-common/src/ebpf/minecraft.rs:78-128 | a body the slice parser accepts is recognised behind any length prefix if and only if body and address are within the two size limits |
| Agreement.PaddedVarIntsDisagree | sniffer/mc-sniffer-common/src/ebpf/minecraft.rs:30-33 | a 777-byte body with redundant VarInt bytes is parsed and not recognised, so the limit is not the largest possible body |
| Encoding.ParseUndoesEncode | sniffer/mc-sniffer-common/src/networking/parser.rs:88-131 | parsing a canonical body returns every original field, for all versions, ports, UTF-8 addresses and both states |
| Encoding.BadStateHidesBehindTrailingBytes | sniffer/mc-sniffer-common/src/networking/parser.rs:112-123 | a body with state 5 and bytes after it is reported as TrailingBytes and is not what the documentation describes |
| Encoding.CanonicalLength | sniffer/mc-sniffer-common/src/ebpf/minecraft.rs:26-33 | canonical bodies never exceed 776 bytes, and reach it exactly with a 765-byte address and a five-byte version |
| Encoding.CanonicalAccepted | sniffer/mc-sniffer-common/src/ebpf/minecraft.rs:78-128 | a canonical handshake followed by anything is recognised if and only if its address and state are in range |
| SliceHeaders.FromHeader | sniffer/mc-sniffer-common/src/networking/net.rs:49-67 | accumulating flag by flag yields the flags byte with its three high bits cleared |
| SliceHeaders.FlagsAgree | sniffer/mc-sniffer-common/src/networking/net.rs:38-90 | both ways to build flags answer the five flag questions alike, and differ as values exactly when a high bit is set |
| SliceHeaders.FlagBits | sniffer/mc-sniffer-common/src/networking/net.rs:28-90 | FIN, SYN, RST, PSH and ACK are bits 0 to 4 of the flags byte, whatever the other bits are |
| SliceHeaders.EthernetExactly | sniffer/mc-sniffer-common/src/networking/net.rs:105-119 | every result by the bytes: too short below 14 bytes, else the ethertype and the rest of the frame |
| SliceHeaders.Ipv4Exactly | sniffer/mc-sniffer-common/src/networking/net.rs:131-163 | every result by the bytes: each error if and only if its condition holds, version before protocol before lengths, and else the four fields |
| SliceHeaders.TcpExactly | sniffer/mc-sniffer-common/src/networking/net.rs:165-189 | every result by the bytes: too short if and only if under 20 bytes, or a data offset below 5 or past the end, and else ports, flag bits and payload |
| Wire.Octets | sniffer/mc-sniffer-common/src/ebpf/networking/ipv4.rs:30-68 | an address number gives its four octets back in order, and two addresses are equal as numbers exactly when they are as bytes |
| EbpfHeaders.FragmentBits | sniffer/mc-sniffer-common/src/ebpf/networking/ipv4.rs:18-55 | a datagram counts as a fragment exactly when bit 5 of byte 20, any bit below it, or any bit of byte 21 is set |
| EbpfHeaders.PayloadWindow | sniffer/mc-sniffer-common/src/ebpf/networking/tcp.rs:24-61 | when both parsers succeed their ports agree, and headers and payload tile the declared datagram, which is physically present |
| EbpfHeaders.HeadersRefine | sniffer/mc-sniffer-common/src/networking/net.rs:113-189 | the kernel path accepts exactly the frames the slice path accepts that are IPv4, have IHL of 5 or more, at most 1500 bytes and no fragment, and then reads the same addresses, ports, flags and payload bytes |
| Flows.MembershipExactly | sniffer/mc-sniffer-ebpf/src/main.rs:113-150 | after any run, a flow is in the table if and only if a stored handshake without FIN or RST opened it and no SYN, FIN, RST or eviction came since, or it was there before and none came at all |
| Flows.VerdictExactly | sniffer/mc-sniffer-ebpf/src/main.rs:113-152 | every verdict in every run, as a condition on the history alone |
| Flows.AbsentExactlyUntilHandshake | sniffer/mc-sniffer-ebpf/src/main.rs:119-144 | from any point of any run where a flow is not in the table, never seen, closed or evicted, all its data is dropped if and only if none of it is a valid handshake |
| Flows.BlockedExactlyUntilHandshake | sniffer/mc-sniffer-ebpf/src/main.rs:119-144 | in every run, after a dropped segment of a flow all further data of it is dropped if and only if none of that data is a valid handshake |
| Flows.DataFollowsHandshake | sniffer/mc-sniffer-ebpf/src/main.rs:113-150 | in every run from an empty table, data that passes is or follows a passed handshake of the same flow with no SYN, FIN or RST in between |
| Flows.FirstPassedIsHandshake | sniffer/mc-sniffer-ebpf/src/main.rs:39-40 | in every epoch of a flow the first data let through is a valid handshake |
| Flows.Delivery | sniffer/mc-sniffer-ebpf/src/main.rs:119-150 | after a stored handshake every packet of the flow passes, up to and including the one that ends it, whatever other flows do |
| Flows.TablesNested | sniffer/mc-sniffer-ebpf/src/main.rs:39-49 | at every point of a run the table that lost more is contained in the one that lost less |
| Flows.Simulation | sniffer/mc-sniffer-ebpf/src/main.rs:39-49 | against a table that loses less, the real one differs only by dropping what the other passes: losses never let anything through |
| Flows.OnlyOwnLossesDrop | sniffer/mc-sniffer-ebpf/src/main.rs:43-47 | a packet an unlimited table would have passed is dropped only because, since the handshake that opened its flow there, that flow was evicted or that handshake found no room |
| Flows.Isolation | sniffer/mc-sniffer-ebpf/src/main.rs:26-37 | a flow's membership and list of verdicts are those of the run with every other flow's packets and evictions removed |
| Filter.XdpFilter.AllowedExactly | sniffer/mc-sniffer-ebpf/src/main.rs:39-49 | at any moment the table of a running filter holds exactly the flows its history leaves open |
| Filter.XdpFilter.Verdict | sniffer/mc-sniffer-ebpf/src/main.rs:59-153 | one packet: the verdict is the run's answer at the last index of the recorded history, the updated table is one step of that run, and the table stays the one the history leads to |
| Filter.XdpFilter.Reclaim | sniffer/mc-sniffer-ebpf/src/main.rs:39-49 | the kernel may drop any entries at any time without breaking the table's tie to its history |
| Filter.FlowsApart | sniffer/mc-sniffer-ebpf/src/main.rs:26-37 | two readings give one key exactly when both addresses and both ports are equal |
| Filter.SettledIsAnswered | sniffer/mc-sniffer-ebpf/src/main.rs:61-104 | an action the header checks settle on is the answer in every run, whatever the table holds |
| Bytewise.SeenExactly | sniffer/mc-sniffer-ebpf/src/main.rs:59-111 | the table judges exactly the unfragmented TCP datagrams to port 25565 with sound lengths, all told by bytes and bits, and is told their key, flags and content |
| Bytewise.SettledExactly | sniffer/mc-sniffer-ebpf/src/main.rs:61-104 | of all other packets: aborted, passed and dropped, each if and only if a condition on the bytes holds |
| Bytewise.SameKeyExactly | sniffer/mc-sniffer-ebpf/src/main.rs:26-37 | two segments have one key if and only if their eight address bytes and four port bytes agree |
| Bytewise.AnswerExactly | sniffer/mc-sniffer-ebpf/src/main.rs:59-153 | the whole program: the answer to every packet of every run is the one a specification on bytes alone calls for, which knows no parser, no table and no loop |
| Padding.PaddingInvisible | sniffer/mc-sniffer-common/src/ebpf/networking/tcp.rs:15-17 | packets that agree up to 14 + Total Length get the same verdict and leave the same table, although reads are bounded only by the physical end, provided that a datagram whose headers lead to the ports has room for a TCP header |
| Padding.PaddingReadAsPorts | sniffer/mc-sniffer-common/src/ebpf/networking/ipv4.rs:60-66 | a datagram declared too short for a TCP header is aborted alone and never once 20 bytes of padding follow |
| Padding.PaddingIrrelevantExactly | sniffer/mc-sniffer-common/src/ebpf/networking/ipv4.rs:42-66 | padding cannot change the observation of a packet if and only if the ports are not reached or lie inside the declared datagram |
| Padding.PaddingInvisibleInRuns | sniffer/mc-sniffer-ebpf/src/main.rs:59-153 | runs that differ only in such padding are the same run of the table |
| EndToEnd.BelongsExactly | sniffer/mc-sniffer-ebpf/src/main.rs:92-117 | a packet belongs to a flow if and only if it is a segment with those addresses and ports in its bytes, and its payload and flags are what those bytes say |
| EndToEnd.ConnectionsApart | sniffer/mc-sniffer-ebpf/src/main.rs:26-37 | two packets belong to one flow if and only if their address and port bytes agree |
| EndToEnd.ObservedTruly | sniffer/mc-sniffer-ebpf/src/main.rs:92-126 | the table logic sees a packet of a flow exactly when one is on the wire, with the SYN, FIN and RST bits of its flags byte, and judges precisely the payload the slice parsers would cut out |
| EndToEnd.NoDataBeforeHandshake | sniffer/mc-sniffer-ebpf/src/main.rs:59-153 | from wire bytes to verdict: no payload of a connection passes before a complete valid handshake of that connection, under any losses and any other traffic |
| EndToEnd.EverythingAfterHandshake | sniffer/tests/test_docker.py:184-191 | from wire bytes to verdict: after the handshake all packets of the connection pass until it ends, as long as the kernel keeps the flow |
| EndToEnd.BlockedExactlyUntilHandshake | sniffer/tests/test_docker.py:20-23 | from wire bytes to verdict: once data of a connection was dropped, the rest is dropped if and only if none of it is a valid handshake |
| EndToEnd.NoBypass | sniffer/mc-sniffer-ebpf/src/main.rs:65-104 | a segment to port 25565 is never waved through by the header checks: it is judged by the table or answered with a drop in every run, and exactly when which |
| EndToEnd.SettledUpToIp | sniffer/mc-sniffer-common/src/ebpf/networking/ethernet.rs:11-23 | the answer, in every run, to every packet the slice parsers fault at or below the IP layer, by the error they report, and a drop for IP headers only the kernel path refuses |
| EndToEnd.SettledAtTcp | sniffer/mc-sniffer-common/src/ebpf/networking/tcp.rs:39-45 | past the IP layer: a segment the slice parser reads is judged exactly when it goes to port 25565 and else passed; one it faults is answered with an abort, a pass or a drop in every run, and exactly when which |
| Fixtures.FrameJudged | sniffer/mc-sniffer-common/src/ebpf/test_support.rs:87-118 | building a frame around any payload and parsing it gives offset 54 and that payload back, or, past 1460 bytes, a drop whatever the table holds |
| Fixtures.FreshTableVerdict | sniffer/mc-sniffer-ebpf/src/main.rs:119-152 | on an empty table a built frame passes if and only if its payload is empty or a handshake, and is remembered if and only if it is a handshake |
| Fixtures.GarbageThenHandshake | sniffer/tests/test_docker.py:194-200 | three built frames of one connection on an empty table: an HTTP request is dropped, any canonical handshake after it passes, and then the same request passes |
| Fixtures.BuildHandshake | sniffer/mc-sniffer-common/src/ebpf/minecraft.rs:171-196 | for every address and state byte the builder accepts, its loop produces the stated fields behind its one- or two-byte prefix |
| Fixtures.BuiltIsCanonical | sniffer/mc-sniffer-common/src/ebpf/minecraft.rs:171-196 | what it builds is the canonical frame if and only if the state byte is below 128 and the body shorter than 16384 bytes, and from that size on its prefix is no VarInt |

## Left out

- Logging, the map and program macros, the panic handler, the user-space loader, build scripts, charts and container files.
- Raw pointers, the volatile read in `ptr_at` and other accommodations of the kernel's verifier: a read is a bounds-checked index into the packet. Null pointers, and offsets so large that an address would wrap, are not modelled.
- The kernel's eviction order, per-CPU caching and races between CPUs: losses are arbitrary and each packet is one atomic step.
- The accessors of the `network_types` crate, which is not part of this model: IHL, data offset, fragment word, protocol and flags are read where section 3.1 of RFC 791 and section 3.1 of RFC 9293 put them.
- UTF-8 decoding itself: an arbitrary predicate on byte strings.
- Fixtures.BuildHandshake: bodies of 32768 bytes and more are excluded, because the builder's integer conversions panic on them.
- Recogniser.CheckHandshake: the read bound is a high-water mark, one past the last byte read, not the set of bytes read.
