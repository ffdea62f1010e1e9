# The network engine of mtr, modelled and proved

`mtr` measures the path to a host. Its front end decides which hop to probe next and keeps the
figures; a separate program, `mtr-packet`, holds the network privileges, sends the probes, recognises
the answers and reports them. The two talk over a pipe, one line per command and one per reply. This
project models both ends and the bundled GNU `getopt`, and proves what each part is for.

| part | files |
|---|---|
| Probe engine: a state machine over the outstanding probes, refined by a doubly linked list on the heap and an event loop | `Engine`, `EngineTheorems`, `TurnTheorems`, `InputTheorems`, `EngineExamples`, `ProbeList`, `NetState`, `EventLoop`, `Sequences`, `TimeVal` |
| Packets: building a probe, the checksum, the ICMP extension, finding the probe a packet belongs to | `Headers`, `Checksum`, `Construct`, `Mpls`, `Recognise` |
| The pipe: framing in two buffers, the tokenizer in place, commands and replies printed and read back | `Framing`, `LineBuffers`, `CmdParse`, `ProbeCommand`, `CommandMeaning`, `CommandLine`, `ReplyLine`, `DaemonOutput`, `EndToEnd` |
| Hop statistics: sequence table, counters, sliding window, integer filters, batch scheduling | `Hops`, `HopTable`, `HopLedger`, `HopPaths`, `RunningStats`, `StatsValues`, `Batch` |
| Argument permutation: block rotation and the resumable option scanner | `Exchange`, `Partition`, `ArgScan`, `ArgItems`, `Getopt`, `ArgTheorems` |
| Integers, text, sequences, optional values | `CInt`, `Text`, `Seqs`, `Options` |

Code that changes fields, buffers or lists in place is a class or a method over arrays, proved against
a function of the old state; the theorems are about those functions and about whole runs. Whatever the
operating system decides (errno, sockets, packets, clock, how `read` cuts the stream) is an input that
ranges over everything.

`dafny verify dfyconfig.toml` checks the whole project.

## Main results

* **One reply per command.** In every run of the event loop, for every token: probe commands among the
  lines of the input = replies printed + probes outstanding; never more than 1024 outstanding; every other
  line gets its notice, in order; the loop exits only with none outstanding, and does exit once the pipe is
  closed and the clock is past every deadline. The heap program (linked list, in-place buffer, retry loop)
  computes exactly that run.
* **Every turn does its work.** A probe outstanding in a reached state is answered in the turn in which a
  packet quotes what was sent for it or echoes it, with its token, result, sender, time and labels; else
  its socket decides; else it is reported as unanswered exactly if more time has passed since its departure
  than its command allowed; else it goes on waiting.
* **From control block to wire and back to words.** The packet of a probe, read by RFC 791, 792, 768 and 1071,
  is what the front end's control block asked for; an ICMP error that quotes it is printed as
  `ttl-expired`, `reply` or `no-route`, by its type and code. This holds while at most 32536 numbers were
  issued since the oldest outstanding probe and UDP ports do not collide with an outstanding sequence.
* **Framing does not depend on reading.** Both buffering algorithms refine one automaton that sees a
  character at a time; chunking is invisible and a line survives if and only if it has at most 4094 bytes.
* **Round trips across the pipe** for commands, MPLS labels and replies, through framing, tokenizing and
  parsing. Over whole runs, everything the daemon prints arrives line by line and parses, and becomes a
  report exactly when it answers a probe in the front end's address family.
* **The hop table shows what happened.** It agrees in every run with an independent ledger of what was sent,
  in which round, and what came back: counters and figures, every slot of every saved window, also of hops
  that rounds left out, the first eight addresses that answered with their labels, the latest error.
* **getopt reads what was written and partitions stably.** Every vector is written from some list of flags,
  clusters, options with arguments, long names, operands and mistakes; the calls end and report exactly
  that list, and leave the vector permuted: the elements of the options in order, then the operands.

## Where the code does less than one would expect

Each of these is proved exactly, as an equivalence, beside an input that shows it.

* `Recognise.UdpSelects`: the answer to a UDP probe with requested ports is credited to the probe whose
  sequence number equals the destination port, else the source port, else to its own; so it is recognised
  if and only if the ports do not collide (`PortsDoNotCollide`). `CollisionExample`: probe 33000 to port
  33001 while probe 33001 is outstanding is taken for the latter.
* `EngineTheorems.SequencesCollideIff`: two outstanding probes share a number if and only if a whole
  number of turns of 32536 lies between them. `EngineExamples.NumbersCollide`: three commands suffice,
  since the retry loop of a stream probe uses numbers up too.
* `HopLedger.NewestSlotIff`: the newest slot of a hop probed in this round shows the hop's newest
  transmission if and only if no earlier round left the hop out or that transmission has no answer; the
  reply lands as many slots too early as rounds left the hop out (`NewestReplyLands`).
  `SkippedHopExample` is a run of five sends and a reply.
* `Batch.PassedTargetsEndIff`: a target passed earlier in the round ends it, as net_send_batch intends, for
  every table if and only if maxUnknown is below 256 or there are fewer than three hops to probe;
  `RoundEndsIff` says exactly when a round ends. `PassedTargetExample`: a limit of 300, which the
  command line accepts.
* `CommandLine.CommandRoundTrip`: the command is refused if and only if a non-zero local port is below
  1024. `RefusedExample`: port 80.
* `ArgTheorems.PartitionIsReadTheSame`: reading the permuted vector again gives the same options if and
  only if the last option did not lack its argument while an element was skipped. `StarvedExample`: "x -o".
* `DaemonOutput.ReportIffAnswered`: lines about errors of sending carry no address, so the front end
  ignores them or stops; its case for a network that is down is never reached from the daemon's output.

Where code and comments differ the code is followed: only the first call of getopt strips the leading
`+` or `-` of the option string (portability/getopt.c:391, against the description at 351-353), so later
calls see that mark as the first character. At ui/net.c:267 the address is compared before the index is
bounded; the model makes the two tests in the safe order.

## Model
| member | source | states |
|---|---|---|
| `EngineTheorems.EveryCommandAnsweredOnce` | packet/packet.c:103-139 | In every run from start-up and for every token, dispatched commands = replies printed + probes outstanding; at most 1024 outstanding; at exit every command has exactly one reply |
| `InputTheorems.EveryLineIsAnswered` | packet/packet.c:103-139 | The same counted from the input: for every token, probe commands among the lines read = replies printed + probes outstanding |
| `InputTheorems.InputIsServed` | packet/command.c:349-426 | The commands taken up are those among the lines of the input, in order, however read; the notices printed are those due for the other lines and overflows, in order |
| `TurnTheorems.ArrivalIsAnswered` | packet/packet.c:112 | If a packet of the turn quotes what was sent for a probe, or echoes it, and no earlier one mentions it, the probe is gone after the turn and its answer is printed |
| `TurnTheorems.ArrivalEndsTheWait` | packet/packet.c:112 | Whatever came before it in the turn, after a packet for a probe the probe is gone and one of the packets that mention it, up to this one, has been printed as its answer |
| `TurnTheorems.SocketIsReported` | packet/probe_unix.c:834-936 | Else, a connection made or refused is printed as a reply, another failure of the socket as an error, and the probe is gone |
| `TurnTheorems.TimeoutIsReported` | packet/packet.c:122 | Else, a no-reply is printed and the probe gone iff more than departure plus timeout has passed; if not, it is still outstanding |
| `TurnTheorems.DeadlinesAreAsRequested` | packet/probe_unix.c:623-624 | In every run a probe's deadline is its departure plus its command's timeout in seconds |
| `TurnTheorems.RunOneMore` | packet/packet.c:103-139 | A run with one turn more is the run and then that turn, unless it had ended |
| `TurnTheorems.SelectedIsMentioned` | packet/deconstruct_unix.c:116-185 | A packet is taken only for probes whose number it carries in a field that counts |
| `TurnTheorems.ForeignIdentifier` | packet/probe.c:190-200 | An echo reply with another identifier selects nothing |
| `TurnTheorems.ForeignQuotedIdentifier` | packet/probe.c:190-200 | Neither does a quoted echo request with another identifier |
| `TurnTheorems.LabelsAreTheExtension` | packet/deconstruct_unix.c:300-357 | The labels of an answer are the first eight of the extension of the packet |
| `EngineTheorems.TimeIsElapsed` | packet/probe_unix.c:668-672 | Departure plus the round trip time is the arrival, below 2^32 microseconds |
| `EngineTheorems.RunIsSound` | packet/packet.c:103-139 | The per-token balance, the strictly decreasing issue numbers on the list, the bound of 1024 and a partial line of at most 4094 characters hold between any two turns of any run |
| `EngineTheorems.TurnIsSound` | packet/packet.c:106-138 | One turn keeps all of that for every packet, socket, clock, read and send outcome |
| `EngineTheorems.SendLeavesOneTrace` | packet/probe_unix.c:546-625 | Every way through sending does exactly one of two things: prints one line for the token and leaves the list alone, or prints nothing and puts one new probe with that token at the head |
| `EngineTheorems.SendOrderly` | packet/probe_unix.c:576-593 | Whatever the retry loop draws, serial numbers stay strictly decreasing along the list, each probe's sequence is the one issued under its serial, and at most 1024 remain |
| `EngineTheorems.ClosedAndExpiredExits` | packet/packet.c:114-138 | With the pipe closed, a turn whose clock is past every deadline is the last |
| `EngineTheorems.RunsThatCloseExit` | packet/packet.c:103-141 | Every run that closes its input and then passes every deadline exits, each token answered as often as it was dispatched |
| `EngineTheorems.SweepIsExact` | packet/probe_unix.c:971-992 | A sweep keeps exactly the probes the verdict keeps and says one line for each other one |
| `EngineTheorems.SweepOrderly` | packet/probe_unix.c:971-992 | After a sweep serial numbers still decrease along the list, so the survivors stand in their old order |
| `EngineTheorems.TimeoutsAreExact` | packet/probe_unix.c:985-990 | A probe survives the timeout check if and only if it was outstanding and is not past its deadline |
| `EngineTheorems.SequencesCollideIff` | packet/probe_unix.c:628-637 | Two outstanding probes have the same sequence number iff a multiple of 32536 numbers was issued between them |
| `EngineTheorems.OutstandingAreDistinct` | packet/probe_unix.c:628-637 | With at most 32536 numbers issued since the oldest outstanding one, all outstanding sequence numbers differ |
| `EngineTheorems.LookupIsExact` | packet/probe.c:180-209 | Under that condition a lookup by two network-order bytes finds probe i iff i has that number |
| `EngineTheorems.QuotedProbeIsAnswered` | packet/deconstruct_unix.c:364-432 | In any orderly state, quoting what was sent for probe i retires exactly that probe and adds one line, with its token, result, sender and round trip time |
| `EngineTheorems.SendRecords` | packet/probe_unix.c:576-617 | An IPv4 ICMP or UDP probe left outstanding carries the packet built from its command under its final sequence number |
| `EngineTheorems.RunRecords` | packet/probe_unix.c:576-617 | In every run every recorded packet is the one built for the probe that carries it |
| `EngineTheorems.WhatWasSentIsAnswered` | packet/probe_unix.c:546-625 | Over every run: quoting the packet sent for an outstanding probe prints one line, under the token of a command that was dispatched |
| `EngineExamples.NumbersCollide` | packet/probe_unix.c:576-593 | A run of three commands after which two outstanding probes have one sequence number, and looking it up finds the newer |
| `Sequences.ConsecutiveAreDistinct` | packet/probe_unix.c:628-637 | Any 32536 numbers issued in a row are distinct |
| `Sequences.OneTurnRepeats` | packet/probe_unix.c:628-637 | The next one repeats the first, so 32536 is the best bound |
| `Sequences.IssuedInRange` | packet/probe_unix.c:588-592 | Every issued number lies in 33000..65535 |
| `ProbeList.List.InsertHead` | portability/queue.h:499-505 | The next/previous structure stays consistent with the abstract sequence, now one longer at the head |
| `ProbeList.List.Remove` | portability/queue.h:514-525 | Any element is unlinked; the sequence loses exactly that position; the removed node keeps its own next pointer, on which safe iteration relies |
| `ProbeList.List.AllDifferent` | portability/queue.h:499-525 | The back links alone rule out that a probe is on the list twice: no cycle |
| `NetState.Net.AllocProbe` | packet/probe.c:136-161 | Null exactly when 1024 are outstanding or memory is out; otherwise a fresh node at the head with the next sequence number |
| `NetState.Net.FreeProbe` | packet/probe.c:164-174 | The probe leaves the list and the count, nothing else changes |
| `NetState.Net.RespondToProbe` | packet/probe.c:252-312 | One answer is printed and exactly that probe is retired |
| `NetState.Net.ReceiveProbe` | packet/probe_unix.c:656-683 | The answer carries the probe's token and the time since its departure |
| `NetState.Net.TryToConstruct` | packet/probe_unix.c:576-593 | The retry loop ends after at most 32535 tries in the state the abstract tries give, with the last packet in the buffer |
| `NetState.Net.TryAndRecord` | packet/probe_unix.c:576-593 | The recorded packet is what the buffer holds when a try gives bytes |
| `NetState.Net.SendProbe` | packet/probe_unix.c:546-625 | The heap program refines the abstract send step on every outcome |
| `NetState.Net.CheckProbeTimeouts` | packet/probe_unix.c:971-992 | Walking the list while freeing from it has the effect of one sweep: each original node visited once, survivors in order |
| `NetState.Net.ReceiveRepliesFromSockets` | packet/probe_unix.c:834-936 | The same for the sockets of stream probes |
| `NetState.Net.FindProbe` | packet/probe.c:180-209 | The list walk with raw 16-bit comparisons agrees with the lookup by position |
| `NetState.Net.HandleInnerUdpPacket` | packet/deconstruct_unix.c:63-87 | Retires the probe selected from the quoted UDP bytes, or nothing |
| `NetState.Net.HandleInnerIp4Packet` | packet/deconstruct_unix.c:116-185 | The same for any quoted IPv4 packet |
| `NetState.Net.HandleReceivedIcmp4Packet` | packet/deconstruct_unix.c:364-432 | The same for an ICMP message, with its labels, from a raw or a datagram socket |
| `NetState.Net.HandleReceivedIp4Packet` | packet/deconstruct_unix.c:492-529 | The whole receive path, with or without the outer header, refines the abstract selection and answer |
| `NetState.Net.GetNextProbeTimeout` | packet/probe_unix.c:1002-1035 | False iff nothing is outstanding; otherwise the least max(0, deadline - now) over the list, normalized |
| `NetState.NoneExpiredBefore` | packet/probe_unix.c:985-990 | While that minimum is positive no probe is expired and the timeout check changes nothing |
| `EventLoop.DispatchCommand` | packet/command.c:349-361 | The dispatcher on the heap refines the abstract command step, answers to check-support included |
| `EventLoop.CheckSupportCommand` | packet/command.c:134-149 | The named feature is answered by version, ok or no; a missing name is an error |
| `EventLoop.TakeTurn` | packet/packet.c:106-128 | One pass of the loop over the real buffers and the real list is one abstract turn |
| `EventLoop.MainLoop` | packet/packet.c:76-142 | The program over any inputs ends in the state of the abstract run, and exits iff that run does |
| `TimeVal.NormalizeTimeval` | packet/timeval.c:25-49 | Microseconds end in [0, 1000000) and the value is max(0, v) |
| `TimeVal.CompareIsOrder` | packet/timeval.c:58-77 | The comparison is the total order of the microsecond values |
| `TimeVal.NormalFormIsUnique` | packet/timeval.c:25-49 | Two normalized values of the same instant are equal |
| `Checksum.ComputeChecksum` | packet/construct_unix.c:42-71 | For odd and even sizes up to the buffer the loops compute the ones' complement checksum, the 32-bit accumulator never overflowing |
| `Checksum.FoldStep` | packet/construct_unix.c:63-68 | Adding the carries back preserves the ones' complement sum |
| `Checksum.FoldedIsTheRemainder` | packet/construct_unix.c:63-70 | The folded sum is the remainder modulo 65535, zero only for zero |
| `Checksum.StoredChecksumVerifies` | packet/construct_unix.c:136-160 | With the checksum stored in its field, recomputing gives 0 (section 1 of RFC 1071) |
| `Construct.ComputePacketSize` | packet/construct_unix.c:441-499 | Which requests have a size, and that the size covers the headers and what was asked |
| `Construct.SizeIsLargest` | packet/construct_unix.c:441-499 | The size, with the header the kernel adds, is the larger of what was asked for and what the headers and a UDP probe's number need |
| `Construct.ConstructIp4Header` | packet/construct_unix.c:109-132 | Exactly the 20 header bytes change, and by RFC 791 they read as version 4, 5 words, the tos, ttl and protocol asked for, the size, both addresses, and zero elsewhere |
| `Construct.ProbePacketReads` | packet/construct_unix.c:109-249 | Every probe packet reads, by the standards, as what was asked for: IP header, echo or UDP header, ports, length, checksum, pattern in every byte of the payload |
| `Construct.ZeroChecksumVerifies` | packet/construct_unix.c:42-71 | A checksum of 0 over the message means its 16-bit words add up to a multiple of 65535 (RFC 1071) |
| `Construct.ConstructIcmp4Header` | packet/construct_unix.c:136-160 | Exactly the 8 echo header bytes change and the ICMP bytes then sum to 0 |
| `Construct.ConstructUdp4Header` | packet/construct_unix.c:227-249 | Exactly the 8 UDP header bytes change, with the ports set_udp_ports chooses |
| `Construct.ConstructPacket` | packet/construct_unix.c:749-791 | Size, errno and socket of a try; on success the IPv4 packet in the buffer reads, by the standards, as what was asked for |
| `Construct.ConstructIp4Packet` | packet/construct_unix.c:503-625 | The IPv4 part, with failing system calls after the headers are written; the packet reads as asked for |
| `Construct.ConstructedIff` | packet/construct_unix.c:503-625 | A try fails iff the packet exceeds the buffer or a system call that is made fails; a raw packet without a mark needs none |
| `Recognise.FindsExactly` | packet/probe.c:202-206 | With distinct sequences a field finds probe i iff it holds i's number, and nothing iff it holds none |
| `Recognise.HeaderCarries` | packet/construct_unix.c:227-249 | A built UDP header, read in network order, carries the ports and the checksum chosen |
| `Recognise.UdpSelects` | packet/deconstruct_unix.c:63-87 | Which probe a UDP header built for probe i selects, whatever its ports |
| `Recognise.UdpRecognised` | packet/deconstruct_unix.c:63-87 | It selects probe i iff the ports do not collide |
| `Recognise.CollisionExample` | packet/construct_unix.c:194-220 | A probe whose answer goes to another |
| `Recognise.QuotedProbeIsRecognised` | packet/deconstruct_unix.c:116-185 | Build then recognise, over all packets: a time-exceeded or unreachable message quoting the probe selects exactly it, iff ports do not collide |
| `Recognise.QuotedStreamIsRecognised` | packet/deconstruct_unix.c:148-183 | A quoted TCP or SCTP probe is found by its local port |
| `Recognise.EchoReplyIsRecognised` | packet/deconstruct_unix.c:384-396 | An echo reply with our identifier selects the probe it echoes |
| `Recognise.ChoiceDependsOnNineBytes` | packet/deconstruct_unix.c:116-185 | The choice depends only on the quoted protocol byte and the first 8 payload bytes (RFC 792) |
| `CInt.HtonsMatches` | packet/probe.c:202-206 | A raw 16-bit field equals htons(x) iff its bytes spell x modulo 65536 in network order |
| `Mpls.DecodeEncode` | packet/deconstruct_unix.c:280-291 | Decoding an encoded label gives the label (section 2.1 of RFC 3032) |
| `Mpls.EncodeDecode` | packet/deconstruct_unix.c:280-291 | Encoding four decoded bytes gives the bytes, so no two entries are confused |
| `Mpls.LabelIsTheWord` | packet/deconstruct_unix.c:280-291 | The fields are the 20, 3, 1 and 8 bits of one big-endian word (section 2.1 of RFC 3032) |
| `Mpls.DecodeMplsObject` | packet/deconstruct_unix.c:264-296 | The labels of the object, at most as many as there is room for, read inside the packet |
| `Mpls.WalkObjects` | packet/deconstruct_unix.c:325-353 | The walk ends, never leaves the packet, and stops at the first MPLS object or the first malformed one |
| `Mpls.DecodeMplsLabels` | packet/deconstruct_unix.c:300-357 | The labels of the whole message, none without a version 2 extension |
| `Mpls.WalkReaches` | packet/deconstruct_unix.c:325-353 | Past any number of well-formed other objects the walk reaches the first MPLS object (sections 7 and 8 of RFC 4884) |
| `Mpls.ExtensionRoundTrip` | packet/deconstruct_unix.c:300-357 | Labels encoded in an extension come back, the first 8 of them |
| `Framing.LineDelivery` | packet/command.c:367-426 | What the automaton makes of one line of any length: an overflow for every 4095 characters without a newline, then the rest as a line |
| `Framing.DeliveredWholeIff` | packet/command.c:367-426 | A line arrives whole, and nothing else happens, iff it has at most 4094 bytes |
| `Framing.EncodedLinesArrive` | ui/cmdpipe.c:723-785 | Any sequence of such lines arrives in order, none lost |
| `LineBuffers.CommandBuffer.ReadCommands` | packet/command_unix.c:59-91 | A read appends its chunk to the buffer and -1 means closed |
| `LineBuffers.CommandBuffer.DispatchBufferCommands` | packet/command.c:367-426 | Consuming and moving down in place refines the automaton on the buffer contents |
| `LineBuffers.ReplyBuffer.ConsumeReplyBuffer` | ui/cmdpipe.c:723-785 | Cutting lines by pointer and moving once refines the same automaton |
| `LineBuffers.ReplyBuffer.HandleCommandReplies` | ui/cmdpipe.c:792-838 | One read: the replies it completes, in order |
| `LineBuffers.PumpCommands` | packet/command_unix.c:59-91 | Over any schedule of reads the events are the automaton's on the stream read |
| `LineBuffers.PumpReplies` | ui/cmdpipe.c:792-838 | The same for the front end |
| `LineBuffers.SameLinesBothSides` | ui/cmdpipe.c:723-785 | The two algorithms find the same lines in the same stream, however each side's reads cut it |
| `CmdParse.WordsOfJoin` | packet/cmdparse.c:33-62 | Splitting at whitespace undoes joining with spaces |
| `CmdParse.WordsOfSpaced` | packet/cmdparse.c:33-62 | Whatever whitespace stands before, between and after them, the words come out |
| `CmdParse.TokenizeCommand` | packet/cmdparse.c:33-62 | Writing NULs in place leaves pointers to exactly the whitespace-separated words; an error iff there are too many |
| `CmdParse.ParseCommand` | packet/cmdparse.c:75-129 | Token, name and argument pairs of those words, with every error of the original |
| `ProbeCommand.DecodeProbeArgument` | packet/command.c:156-276 | The in-place decoder accepts exactly the arguments the description accepts, with the same effect |
| `ProbeCommand.PrepareProbe` | packet/command.c:308-342 | Stopping at the first bad argument gives the result of decoding them all |
| `CommandMeaning.RefusedIffBad` | packet/command.c:156-276 | A command's arguments are refused iff one is an unknown protocol, a number that is none, or a local port below 1024 |
| `CommandMeaning.NumbersAreLast` | packet/command.c:308-342 | Every numeric field has the value of the last argument with its name, or its default: ttl 255, size 64, timeout 10, others 0 |
| `CommandMeaning.NamesAreLast` | packet/command.c:156-276 | Protocol and addresses are those of the last arguments that name them; ICMP by default |
| `CommandMeaning.SupportIsHonest` | packet/command.c:86-130 | A well-formed command is carried out iff check-support says ok of its IP version and of its protocol |
| `CommandLine.ConstructBaseCommand` | ui/cmdpipe.c:343-399 | The text is the base words joined, never truncated |
| `CommandLine.AppendCommandArgument` | ui/cmdpipe.c:404-417 | One more pair of words, at most 24 characters more, never truncated |
| `CommandLine.SendProbeCommand` | ui/cmdpipe.c:421-477 | What is written is one line of at most 4094 characters made of the intended words |
| `CommandLine.CommandRoundTrip` | ui/cmdpipe.c:421-477 | Printed, framed, tokenized, parsed and decoded, every field comes back; refused iff the local port is non-zero and below 1024; at most 11 arguments |
| `CommandLine.RefusedExample` | packet/command.c:208-222 | A control block with local port 80, refused |
| `Text.StrtolDecimal` | packet/command.c:203-275 | Reading a printed number gives the number and uses all of it |
| `ReplyLine.FormatMplsString` | packet/probe.c:216-246 | All labels as text, never truncated: at most 17 characters each |
| `ReplyLine.ParseMplsValues` | ui/cmdpipe.c:485-543 | The counters and destructive loop store exactly the fields of the text |
| `ReplyLine.MplsRoundTrip` | ui/cmdpipe.c:485-543 | Printed labels are read back, label for label |
| `ReplyLine.FormatResponse` | packet/probe.c:252-312 | The reply is its words joined, at most 300 characters; parsed, its name is `reply`, `ttl-expired` or `no-route` iff the result is, and its arguments are address, time and labels |
| `ReplyLine.ReplySaysResult` | packet/probe.c:268-300 | The same of every valid response |
| `ReplyLine.ParseReplyArguments` | ui/cmdpipe.c:551-608 | The loop over the arguments gathers what the description says, whatever their order and number |
| `ReplyLine.HandleCommandReply` | ui/cmdpipe.c:662-715 | Parsing in place and gathering yields the abstract handling of the line |
| `ReplyLine.ReplyRoundTrip` | ui/cmdpipe.c:662-715 | Every reply printed for a probe is read back: token, address, time, result and labels |
| `DaemonOutput.PrintedArrives` | ui/cmdpipe.c:723-785 | Any line the daemon prints is one line of at most 4094 characters that parses under its token |
| `DaemonOutput.NamesAreSaid` | packet/probe_unix.c:523-543 | The name under which each kind of line goes out, as written out in NameOf |
| `DaemonOutput.ErrnoNames` | packet/probe_unix.c:523-543 | The name for every errno of a failed send |
| `DaemonOutput.ReportIffAnswered` | ui/cmdpipe.c:616-715 | A line becomes a report iff it answers a probe in our address family, field by field; any other is fatal or ignored by its name |
| `DaemonOutput.RunPrintable` | packet/packet.c:103-139 | In every run all that is printed, and all that may yet be answered, is fit to be read |
| `DaemonOutput.OutputIsUnderstood` | ui/cmdpipe.c:792-838 | The front end gets the whole output of any run line by line as printed, and makes of each line what it should |
| `EndToEnd.CommandIsCarriedOut` | packet/command.c:308-361 | The line printed for a control block is dispatched as the probe that control block intends |
| `EndToEnd.CommandOnTheWire` | packet/construct_unix.c:503-625 | If that probe is sent over IPv4, its bytes read as the ttl, tos, protocol, ports and pattern of the control block |
| `EndToEnd.ErrorIsPrinted` | packet/probe.c:252-312 | Over every run: an ICMP error quoting what was sent prints a line that parses as `ttl-expired`, `reply` or `no-route` by type and code, with the token, the sender and the time |
| `HopLedger.TableAgreesWithLedger` | ui/net.c:137-326 | In every run of sends, replies, duplicates, late replies, wrap-arounds and resets the table agrees with the independent ledger |
| `HopLedger.NothingIsOvercounted` | ui/net.c:375-393 | returned + sequences in transit <= xmit; transit implies returned < xmit; drop >= 0; loss within 0..100000 |
| `HopLedger.FiguresAreOfArrivals` | ui/net.c:218-326 | Counters and figures of a hop are those of its replies in order of arrival |
| `HopLedger.LossIsOfUnanswered` | ui/net.c:375-393 | Drop is the number of unanswered transmissions but for one in transit, and loss their share in thousandths of a percent, rounded down |
| `HopPaths.HopsShowWhoAnswered` | ui/net.c:218-275 | In every run a hop shows address and labels of its first specified reply, the first 8 distinct addresses in order with the labels of their first replies, and the latest error; up, sent and transit say what they should |
| `HopPaths.FirstsAre` | ui/net.c:254-272 | The paths are exactly the first replies from specified addresses, in order of arrival |
| `HopPaths.PathsCover` | ui/net.c:254-272 | Every address that answered has exactly one path |
| `HopPaths.EndTransitClearsAll` | ui/net.c:535-543 | After the end of transit no hop is waiting |
| `HopLedger.WindowShowsHistory` | ui/net.c:875-908 | For a hop never skipped, each of the last 200 transmissions has its time or no answer in its own slot, and the offset is xmit-199 or xmit-198 |
| `HopLedger.SlotsShow` | ui/net.c:875-908 | The content of every slot of every hop in every run: an answered transmission, a mark of its round, or empty |
| `HopLedger.NewestSlotIff` | ui/net.c:875-908 | The newest slot shows the newest transmission iff the hop was never skipped or that transmission has no answer |
| `HopLedger.NewestReplyLands` | ui/net.c:897-908 | The reply to a hop's newest transmission changes the slot as many before the newest as rounds left the hop out, or none; the newest iff none did |
| `HopLedger.SkippedHopExample` | ui/net.c:875-908 | A run after which the newest slot shows no answer although there was one |
| `HopLedger.LateRepliesLeaveTheWindow` | ui/net.c:897-908 | A reply to a transmission older than the window changes no slot |
| `Hops.StaysValid` | ui/net.c:137-326 | Every event keeps the table well formed |
| `HopTable.NetTable.SaveIncrement` | ui/net.c:875-885 | Every window moves one slot and its last slot is empty |
| `HopTable.NetTable.SaveXmit` | ui/net.c:888-894 | Windows move when the slot was taken; the slot of this hop is marked |
| `HopTable.NetTable.SaveReturn` | ui/net.c:897-908 | One slot of one hop, if it is in the window |
| `HopTable.NetTable.SaveSequence` | ui/net.c:137-157 | The sequence entry and the hop's counters after a transmission |
| `HopTable.NetTable.NewSequence` | ui/net.c:159-174 | Returns the next number, wrapping, and records the transmission |
| `HopTable.NetTable.MarkSequenceComplete` | ui/net.c:197-210 | A hop is returned iff the number was in transit, which it then no longer is |
| `HopTable.NetTable.ProcessPing` | ui/net.c:218-326 | One reply: table entry, path, figures and window; nothing for a number not in transit |
| `HopTable.NetTable.EndTransit` | ui/net.c:535-543 | Only the transit flags of the hops go down |
| `HopTable.NetTable.Clear` | ui/net.c:827-850 | A reset forgets hops and sequences but not the next number |
| `HopTable.NetTable.NetMax` | ui/net.c:470-497 | The first hop that is the target or has an error; failing that one past the last that answered, within maxTTL |
| `RunningStats.RecordReply` | ui/net.c:275-311 | The statements in their order give the next figures |
| `RunningStats.MeanIsBounded` | ui/net.c:280-304 | Best and worst are the extremes, best <= avg <= worst, and 0 <= sum - n*avg <= n(n-1)/2 after n replies |
| `RunningStats.SpreadGrows` | ui/net.c:301-304 | The sum of squares never decreases and is never negative, so its root is defined |
| `RunningStats.JitterIsBounded` | ui/net.c:275-311 | 0 <= jinta <= 16*jworst+7 and 0 <= javg <= jworst <= worst - best (section A.8 of RFC 1889) |
| `StatsValues.JitterIsOfJumps` | ui/net.c:275-311 | Jitter and worst jitter are those of the changes between successive times; the mean misses theirs by at most n(n-1)/2 in the sum; the filter is within half a unit of its exact value |
| `StatsValues.SpreadIs` | ui/net.c:301-304 | The sum of squares exactly, about any point |
| `StatsValues.SpreadIsWorth` | ui/net.c:301-304 | How far the sum of squares can be from the spread of the times |
| `RunningStats.FiguresFitInt32` | ui/net.c:275-311 | With times below 2^27 microseconds no such figure leaves 32 bits |
| `Batch.Sender.SendBatch` | ui/net.c:545-607 | The command printed is for the hop at batch_at; 1 iff the round ends; then back to the first hop, otherwise one further |
| `Batch.Sender.SendQuery` | ui/net.c:178-188 | The command carries the number under which the transmission is recorded and the time to live that ends at the hop |
| `Batch.NumberIsTheHops` | ui/net.c:159-210 | A reply under that number is a reply to that hop |
| `Batch.RoundEndsIff` | ui/net.c:571-602 | For every limit: a round ends iff this hop is the target or the last allowed, or more than maxUnknown is counted: the silent hops since the last target passed, on top of 256 if there is one |
| `Batch.PassedTargetsEndIff` | ui/net.c:583-590 | A target passed earlier always ends the round iff maxUnknown is below 256 or fewer than three hops are probed |
| `Batch.PassedTargetExample` | ui/net.c:583-590 | With a limit of 300 the round goes on past the target |
| `Batch.RoundsAdvance` | ui/net.c:545-607 | Until a round ends each batch call goes one hop further, whatever replies arrive between |
| `Batch.RoundsEnd` | ui/net.c:545-607 | A round ends within maxTTL - fstTTL + 1 calls |
| `Batch.FirstHopIsNeverSkipped` | ui/net.c:545-607 | In every run the first hop is probed in every round, and a round so far is a block of consecutive hops |
| `Batch.FirstHopWindowIsAligned` | ui/net.c:875-894 | So the first hop's window always shows its latest transmissions |
| `Exchange.SwapSegments` | portability/getopt.c:251-256 | Two disjoint stretches change places, nothing else moves |
| `Exchange.ExchangeBlocks` | portability/getopt.c:230-278 | A++B becomes B++A in place for all lengths, both orders preserved, elements outside untouched; the loop ends |
| `Getopt.Scanner.ExchangeNonOptions` | portability/getopt.c:230-284 | first_nonopt and last_nonopt describe the skipped block where it now is |
| `Getopt.Scanner.Initialize` | portability/getopt.c:288-320 | Ordering from the option string or POSIXLY_CORRECT; scanning starts at element 1 with nothing skipped |
| `Getopt.Scanner.SkipNonOptions` | portability/getopt.c:399-416 | Options move before the skipped block, which then grows to the next option; the reading is unchanged |
| `Getopt.Scanner.PassDoubleDash` | portability/getopt.c:423-434 | "--" counts as consumed, all after it does not, and the vector is partitioned |
| `Getopt.TestLongOptions` | portability/getopt.c:496-519 | Found, ambiguous or unknown as the description of long names says |
| `ArgScan.ResolveSelects` | portability/getopt.c:496-519 | A name selects option k iff it is the first of exactly that name, or there is none and k is the only one it abbreviates; unknown iff it abbreviates none |
| `ArgItems.IntendedIsRead` | portability/getopt.c:378-680 | A vector written from intended items is read as intended: flags, clusters, attached, separate and optional arguments, long names and abbreviations, operands, "--", and every mistake with its report |
| `ArgItems.EveryVectorIsWritten` | portability/getopt.c:378-680 | Every vector is written from some items, so its reading is described |
| `ArgItems.TakenAreOptions` | portability/getopt.c:395-446 | What is taken are the elements of the options and "--", what is left the operands and what follows "--" |
| `Getopt.MarksChoose` | portability/getopt.c:288-320 | How the mark of the option string and POSIXLY_CORRECT choose the treatment of operands |
| `Getopt.EndedAsMeant` | portability/getopt.c:378-680 | At EOF everything intended has been told; by default argv is the program name, the elements of the options, then the operands, optind at the first |
| `Getopt.Scanner.DecodeLong` | portability/getopt.c:481-605 | Result, optarg, longind, flag, optind and nextchar of one long option |
| `Getopt.Scanner.TakeLong` | portability/getopt.c:528-573 | The argument and the flag of a long option that was found |
| `Getopt.Scanner.DecodeShort` | portability/getopt.c:609-679 | Result, optarg, optopt, optind and nextchar of one short option |
| `Getopt.Scanner.Next` | portability/getopt.c:378-680 | Each call reports the next event of the reading of the original vector and gets closer to the end (optind, then characters left); EOF comes only after the last event, with argv partitioned and optind at the first element not consumed |
| `Getopt.ParseAll` | portability/getopt.c:378-680 | The repeated calls reach EOF; all reports are those of the left-to-right reading; argv is the stable partition |
| `Partition.PartitionedIsPermutation` | portability/getopt.c:395-446 | The final vector is a permutation of the original |
| `Partition.ArrangedExchange` | portability/getopt.c:230-284 | Rotation keeps the arrangement: consumed elements in order around one block of skipped ones in order |
| `Partition.ArrangedEnd` | portability/getopt.c:439-446 | When the scan ends the vector is partitioned and optind is one past the consumed elements |
| `ArgTheorems.PartitionIsReadTheSame` | portability/getopt.c:395-446 | Reading the permuted vector again gives the same events and moves nothing, iff no final option lacked its argument while elements were skipped |
| `ArgTheorems.StarvedExample` | portability/getopt.c:649-665 | The input prog x -o, on which the permuted vector is read differently |
| `ArgTheorems.PosixReportsAPrefix` | portability/getopt.c:451-457 | Without permutation the reports are a prefix of those with it |

## Left out

- Sockets, select, fork, pipes, capabilities, privilege dropping and the Cygwin back end: I/O and foreign calls; their results are inputs.
- Address text conversion: an address is its family and its text, with a predicate for which texts are valid.
- getsockname, bind and setsockopt details of stream probes, check_length_order: behaviour of the system that is not visible in the source. A try to construct a stream probe is an input.
- The IPv6 twins of the packet code: more cases of the same kind; in raw IPv6 the kernel writes the UDP checksum, so the bytes of an IPv6 packet are not part of this model.
- The error queue of datagram sockets and what the kernel changes in a datagram it sends.
- Streams with NUL bytes: `index` stops at NUL, so framing is stated for streams without them.
- Messages of getopt and long_only: text for the user, and a variant the program does not use.
- Calls of getopt after the first EOF.
- The socket of a try that connected at once while errno still held EADDRINUSE: the loop tries again and the descriptor is lost; the model keeps the last socket, as the code does, and says nothing about the other.
- Builds without SO_MARK or SCTP: both are taken to be defined.
- Big-endian hosts: a length field in host order is that of a little-endian machine.
- gmean and the square root itself, which are floating point: only that the argument of the root is not negative.
- The transmission time kept in the front end's sequence table, and the raw and curses displays: presentation.
- fstTTL and maxTTL are fixed during a run of the batch scheduler; the clock part of net_send_batch's caller and the grace period are not part of this model.
- A host or sequence entry of the hop table is a value in an array, since nothing else points to it; the arrays are updated in place.
- LineBuffers.CommandBuffer.DispatchBufferCommands: returns the complete lines in order and EventLoop dispatches them afterwards; in the source each is dispatched as it is found, which is the same because dispatching does not touch the buffer.
- NetState.Net.RespondToProbe: adds a structured answer to the output; its text, and that the text is understood, is the matter of ReplyLine and DaemonOutput.
- Recognise.QuotedProbeIsRecognised: for raw sockets; with datagram sockets the kernel chooses the identifier and the source port.
- RunningStats.FiguresFitInt32: says nothing of the sum of squares, which the source keeps in 64 bits.
