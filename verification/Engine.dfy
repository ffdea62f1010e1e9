/**
 * mtr-packet as a state machine (packet/probe.c, packet/probe_unix.c, packet/command.c,
 * packet/packet.c).  Everything the operating system decides is an input.
 */
module Engine {
  import opened CInt
  import opened Text
  import opened Seqs
  import opened TimeVal
  import opened Sequences
  import opened Framing
  import opened LineBuffers
  import opened CmdParse
  import opened ProbeCommand
  import opened Options
  import opened Checksum
  import opened Construct
  import opened Mpls
  import opened ReplyLine
  import opened Recognise

  const MAX_PROBES := 1024

  /** The retry loop of a stream probe makes one try fewer than there are ports. */
  const MAX_TRIES := MAX_PORT - MIN_PORT

  // ----- what is printed -----

  datatype ErrorReport =
    | ReportInvalidArgument | ReportNetworkDown | ReportNoRoute | ReportPermissionDenied
    | ReportAddressInUse | ReportAddressNotAvailable | ReportUnexpected(errno: Errno)

  function ReportFor(e: Errno): ErrorReport {
    match e
    case EINVAL => ReportInvalidArgument
    case ENETDOWN => ReportNetworkDown
    case ENETUNREACH => ReportNoRoute
    case EHOSTUNREACH => ReportNoRoute
    case EPERM => ReportPermissionDenied
    case EADDRINUSE => ReportAddressInUse
    case EADDRNOTAVAIL => ReportAddressNotAvailable
    case _ => ReportUnexpected(e)
  }

  datatype Notice =
    | CommandParseError | CommandBufferOverflow | UnknownCommand(token: int)
    | FeatureSupport(token: int, support: string) | FeatureMissing(token: int)

  /** A line of output.  All but notices answer a `send-probe` command. */
  datatype OutputLine =
    | Answered(response: Response)
    | NoReply(token: int)
    | SendFailed(token: int, report: ErrorReport)
    | ProbesExhausted(token: int)
    | BadAddress(token: int)
    | RequestRefused(token: int, reason: Refusal)
    | Noticed(notice: Notice)

  function TokenOf(l: OutputLine): Option<int> {
    match l
    case Answered(response) => Some(response.token)
    case NoReply(token) => Some(token)
    case SendFailed(token, _) => Some(token)
    case ProbesExhausted(token) => Some(token)
    case BadAddress(token) => Some(token)
    case RequestRefused(token, _) => Some(token)
    case Noticed(_) => None
  }

  // ----- state -----

  /**
   * A tracked probe; `serial` counts the sequence numbers issued before its own, `param` is what
   * it was sent for, `wire` the packet, if it is one of ours to build.
   */
  datatype ProbeRecord = ProbeRecord(
    serial: nat, sequence: int, token: int, remoteAddress: Address, socket: int,
    timeoutTime: Time, departureTime: Time, param: Option<ProbeParam>, wire: Option<Wire>)

  datatype State = State(
    probes: seq<ProbeRecord>, nextSequence: int, issued: nat, dispatched: seq<int>, output: seq<OutputLine>)

  const INITIAL := State([], MIN_PORT, 0, [], [])

  /** Who we are and what was opened at the start. */
  datatype Config = Config(net: NetConfig, support: Support, version: string)

  function Say(s: State, l: OutputLine): State { s.(output := s.output + [l]) }

  /** A probe leaves the list and its command is answered. */
  function Retire(s: State, k: nat, l: OutputLine): State
    requires k < |s.probes|
  {
    Say(s.(probes := Without(s.probes, k)), l)
  }

  function SequencesOf(probes: seq<ProbeRecord>): (r: seq<int>)
    ensures |r| == |probes|
  {
    seq(|probes|, i requires 0 <= i < |probes| => probes[i].sequence)
  }

  function TokensOf(probes: seq<ProbeRecord>): (r: seq<int>)
    ensures |r| == |probes|
  {
    seq(|probes|, i requires 0 <= i < |probes| => probes[i].token)
  }

  // ----- answering -----

  /** The round trip time in an unsigned 32-bit variable. */
  function RoundTripUs(received: Time, departed: Time): int {
    (Micros(received) - Micros(departed)) % 0x1_0000_0000
  }

  function Answer(p: ProbeRecord, icmp: IcmpResult, from: Address, received: Time, labels: seq<Label>): OutputLine {
    Answered(Response(p.token, icmp, from.ip6, from.text, RoundTripUs(received, p.departureTime), labels))
  }

  // ----- sending -----

  /** An IPv4 address as four bytes. */
  type Ip4Bytes = b: seq<Byte> | |b| == 4 witness [0, 0, 0, 0]

  /**
   * Everything the system decides while one probe is sent.  The addresses it resolves to are given
   * as the text `inet_ntop` prints for the remote one, and as the bytes that go into an IPv4 header.
   */
  datatype SendOutcome = SendOutcome(
    allocates: bool, resolves: Option<string>, source: Ip4Bytes, dest: Ip4Bytes,
    departure: Time, system: nat -> System, sendError: Option<Errno>, now: Time)

  datatype Tried = Tried(last: Attempt, sequence: int, serial: nat, socket: int, nextSequence: int, issued: nat)

  /** From try number k on; every retry takes the next sequence number. */
  function Try(config: NetConfig, p: ProbeParam, system: nat -> System, k: nat, t: Tried): Tried
    requires k < MAX_TRIES
    decreases MAX_TRIES - k
  {
    var a := Constructed(config, p, system(k));
    var tried := t.(last := a, socket := if a.socket.Some? then a.socket.value else t.socket);
    if a.size > 0 || !IsStream(p.protocol) || a.errno != EADDRINUSE then tried
    else
      var again := tried.(sequence := tried.nextSequence, serial := tried.issued,
                          nextSequence := NextSequence(tried.nextSequence), issued := tried.issued + 1);
      if k + 1 == MAX_TRIES then again else Try(config, p, system, k + 1, again)
  }

  /** Only a try for an ICMP or UDP probe gives a packet with bytes. */
  lemma {:induction false} TryBuilds(config: NetConfig, p: ProbeParam, system: nat -> System, k: nat, t: Tried)
    requires k < MAX_TRIES
    ensures var a := Try(config, p, system, k, t).last;
            a.size >= 0 && p.ipVersion == 4 && !IsStream(p.protocol) ==>
              HeaderSpace(config, p) <= a.size <= PACKET_BUFFER_SIZE && p.protocol in {IPPROTO_ICMP, IPPROTO_UDP}
    ensures IsStream(p.protocol) ==> Try(config, p, system, k, t).last.size <= 0
    decreases MAX_TRIES - k
  {
    var a := Constructed(config, p, system(k));
    if !(a.size > 0 || !IsStream(p.protocol) || a.errno != EADDRINUSE) && k + 1 < MAX_TRIES {
      var socket := if a.socket.Some? then a.socket.value else t.socket;
      TryBuilds(config, p, system, k + 1,
                Tried(a, t.nextSequence, t.issued, socket, NextSequence(t.nextSequence), t.issued + 1));
    }
  }

  /** A command arrived; whatever becomes of it, it will have to be answered. */
  function Dispatched(s: State, token: int): State { s.(dispatched := s.dispatched + [token]) }

  /** A new probe at the head of the list takes the next sequence number. */
  function AllocProbe(s: State, token: int): State {
    s.(probes := [ProbeRecord(s.issued, s.nextSequence, token, Address(false, ""), 0, Time(0, 0), Time(0, 0), None, None)] + s.probes,
       nextSequence := NextSequence(s.nextSequence), issued := s.issued + 1)
  }

  function Deadline(departure: Time, timeout: int): Time { departure.(sec := departure.sec + timeout) }

  const NO_ATTEMPT := Attempt(-1, OtherErrno(0), None)

  /** The outcome of the tries for the newest probe. */
  function TriesFor(config: NetConfig, s: State, p: ProbeParam, os: SendOutcome): Tried
    requires s.probes != []
  {
    Try(config, p, os.system, 0,
        Tried(NO_ATTEMPT, s.probes[0].sequence, s.probes[0].serial, 0, s.nextSequence, s.issued))
  }

  /** What goes to `sendto` for an IPv4 ICMP or UDP probe. */
  function WireOf(config: NetConfig, p: ProbeParam, os: SendOutcome, t: Tried): Option<Wire> {
    if p.ipVersion == 4 && t.last.size >= HeaderSpace(config, p) then
      Some(Wire(p, os.source, os.dest, ProbePacket(config, t.sequence, p, os.source, os.dest, t.last.size)))
    else None
  }

  /** The state after the tries: the newest probe has its final number, socket, addresses and packet. */
  function AfterTries(config: NetConfig, s: State, p: ProbeParam, os: SendOutcome): (r: State)
    requires s.probes != [] && os.resolves.Some?
    ensures |r.probes| == |s.probes|
  {
    var t := TriesFor(config, s, p, os);
    var probe := s.probes[0].(sequence := t.sequence, serial := t.serial,
                              remoteAddress := Address(p.ipVersion == 6, os.resolves.value),
                              socket := t.socket, departureTime := os.departure,
                              param := Some(p), wire := WireOf(config, p, os, t));
    s.(probes := [probe] + s.probes[1..], nextSequence := t.nextSequence, issued := t.issued)
  }

  /** What the last try and `sendto` decide for the newest probe. */
  function Settle(s: State, last: Attempt, p: ProbeParam, os: SendOutcome): State
    requires s.probes != []
  {
    var probe := s.probes[0];
    if last.size < 0 && last.errno == ECONNREFUSED then
      Retire(s, 0, Answer(probe, EchoReply, probe.remoteAddress, os.now, []))
    else if last.size < 0 then
      Retire(s, 0, SendFailed(probe.token, ReportFor(last.errno)))
    else if last.size > 0 && os.sendError.Some? then
      Retire(s, 0, SendFailed(probe.token, ReportFor(os.sendError.value)))
    else
      s.(probes := [probe.(timeoutTime := Deadline(probe.departureTime, p.timeout))] + s.probes[1..])
  }

  function SendProbe(config: NetConfig, s: State, p: ProbeParam, os: SendOutcome): State {
    if |s.probes| >= MAX_PROBES || !os.allocates then Say(s, ProbesExhausted(p.commandToken))
    else
      var s1 := AllocProbe(s, p.commandToken);
      if os.resolves.None? then Retire(s1, 0, BadAddress(p.commandToken))
      else Settle(AfterTries(config, s1, p, os), TriesFor(config, s1, p, os).last, p, os)
  }

  // ----- sweeping the list: each probe is kept, or retired with a line -----

  datatype Swept = Swept(kept: seq<ProbeRecord>, lines: seq<OutputLine>)

  function Sweep(probes: seq<ProbeRecord>, verdict: ProbeRecord -> Option<OutputLine>): Swept {
    if probes == [] then Swept([], [])
    else
      var before := Sweep(probes[..|probes| - 1], verdict);
      var p := probes[|probes| - 1];
      if verdict(p).None? then before.(kept := before.kept + [p])
      else before.(lines := before.lines + [verdict(p).value])
  }

  function SweepState(s: State, verdict: ProbeRecord -> Option<OutputLine>): State {
    var swept := Sweep(s.probes, verdict);
    s.(probes := swept.kept, output := s.output + swept.lines)
  }

  predicate Expired(p: ProbeRecord, now: Time) { CompareTimeval(p.timeoutTime, now) < 0 }

  function TimeoutVerdict(now: Time): ProbeRecord -> Option<OutputLine> {
    (p: ProbeRecord) => if Expired(p, now) then Some(NoReply(p.token)) else None
  }

  /** What `select` and SO_ERROR say about the socket of a stream probe, and the time then. */
  datatype SocketStatus = NotWritable | Connected(now: Time) | Failed(err: Errno, now: Time)

  function SocketVerdict(status: int -> SocketStatus): ProbeRecord -> Option<OutputLine> {
    (p: ProbeRecord) =>
      if p.socket == 0 || status(p.socket).NotWritable? then None
      else
        var st := status(p.socket);
        if st.Connected? || st.err == ECONNREFUSED then Some(Answer(p, EchoReply, p.remoteAddress, st.now, []))
        else Some(SendFailed(p.token, ReportFor(st.err)))
  }

  // ----- receiving -----

  datatype Packet = Packet(bytes: seq<Byte>, from: string, received: Time)

  function PacketLabels(config: NetConfig, bytes: seq<Byte>): seq<Label> {
    if |bytes| < OuterSize(config) then [] else LabelsOfMessage(bytes[OuterSize(config)..], MAX_MPLS_LABELS)
  }

  /** The selected probe, if any, is retired with an answer. */
  function ReceiveProbe(s: State, index: Option<nat>, icmp: IcmpResult, from: string, received: Time,
                        labels: seq<Label>): State
    requires index.Some? ==> index.value < |s.probes|
  {
    if index.None? then s
    else Retire(s, index.value, Answer(s.probes[index.value], icmp, Address(false, from), received, labels))
  }

  /** An ICMP message with its labels already decoded. */
  function ReceiveIcmp(config: NetConfig, s: State, message: seq<Byte>, from: string, received: Time, labels: seq<Label>): State
    requires |message| >= 8
  {
    var m := SelectIcmp(config, SequencesOf(s.probes), message);
    if m.None? then s else ReceiveProbe(s, Some(m.value.index), m.value.icmp, from, received, labels)
  }

  function ReceivePacket(config: NetConfig, s: State, packet: Packet): State {
    var m := SelectPacket(config, SequencesOf(s.probes), packet.bytes);
    if m.None? then s
    else ReceiveProbe(s, Some(m.value.index), m.value.icmp, packet.from, packet.received, PacketLabels(config, packet.bytes))
  }

  function ReceiveAll(config: NetConfig, s: State, packets: seq<Packet>): State {
    if packets == [] then s
    else ReceivePacket(config, ReceiveAll(config, s, packets[..|packets| - 1]), packets[|packets| - 1])
  }

  // ----- commands -----

  /** The value of the first argument with the name. */
  function FindParameter(arguments: seq<Argument>, name: string): Option<string> {
    if arguments == [] then None
    else if arguments[0].name == name then Some(arguments[0].value)
    else FindParameter(arguments[1..], name)
  }

  function YesNo(b: bool): string { if b then "ok" else "no" }

  /** Features in the order they are tested; SO_MARK and SCTP are taken to be defined. */
  function FeatureAnswer(config: Config, feature: string): string {
    if feature == "version" then config.version
    else if feature == "ip-4" then YesNo(VersionSupported(config.support, 4))
    else if feature == "ip-6" then YesNo(VersionSupported(config.support, 6))
    else if feature == "icmp" then YesNo(ProtocolSupported(config.support, IPPROTO_ICMP))
    else if feature == "udp" then YesNo(ProtocolSupported(config.support, IPPROTO_UDP))
    else if feature == "tcp" then YesNo(ProtocolSupported(config.support, IPPROTO_TCP))
    else if feature == "sctp" then YesNo(ProtocolSupported(config.support, IPPROTO_SCTP))
    else YesNo(feature == "send-probe" || feature == "mark")
  }

  function CheckSupport(config: Config, c: Command): Notice {
    var feature := FindParameter(c.arguments, "feature");
    if feature.None? then FeatureMissing(c.token) else FeatureSupport(c.token, FeatureAnswer(config, feature.value))
  }

  function DispatchCommand(config: Config, s: State, c: Command, os: SendOutcome): State {
    if c.name == "check-support" then Say(s, Noticed(CheckSupport(config, c)))
    else if c.name == "send-probe" then
      match Requested(c, config.support)
      case Refuse(reason) => Say(Dispatched(s, c.token), RequestRefused(c.token, reason))
      case Send(p) => SendProbe(config.net, Dispatched(s, c.token), p, os)
    else Say(s, Noticed(UnknownCommand(c.token)))
  }

  function DispatchEvent(config: Config, s: State, e: Event, os: SendOutcome): State {
    match e
    case Overflow => Say(s, Noticed(CommandBufferOverflow))
    case Line(text) =>
      match ParseLine(text)
      case Invalid => Say(s, Noticed(CommandParseError))
      case Parsed(c) => DispatchCommand(config, s, c, os)
  }

  /** The n-th event of a batch meets the n-th outcome. */
  function DispatchAll(config: Config, s: State, events: seq<Event>, os: nat -> SendOutcome): State {
    if events == [] then s
    else
      var n := |events| - 1;
      DispatchEvent(config, DispatchAll(config, s, events[..n], os), events[n], os(n))
  }

  // ----- the event loop -----

  datatype Daemon = Daemon(net: State, partial: string, open: bool)

  const START_UP := Daemon(INITIAL, "", true)

  /** What one turn of the loop finds: packets, socket states, input, the clock, send outcomes. */
  datatype Turn = Turn(packets: seq<Packet>, sockets: int -> SocketStatus, input: ReadResult,
                       now: Time, sends: nat -> SendOutcome)

  function ReceiveReplies(config: NetConfig, s: State, turn: Turn): State {
    SweepState(ReceiveAll(config, s, turn.packets), SocketVerdict(turn.sockets))
  }

  function InputOf(d: Daemon, turn: Turn): string {
    if d.open && turn.input.Bytes? then turn.input.chunk else ""
  }

  function OneTurn(config: Config, d: Daemon, turn: Turn): Daemon {
    var s1 := ReceiveReplies(config.net, d.net, turn);
    var open := d.open && !turn.input.Closed?;
    var s2 := SweepState(s1, TimeoutVerdict(turn.now));
    var scanned := Scan(START, d.partial + InputOf(d, turn));
    Daemon(DispatchAll(config, s2, scanned.events, turn.sends), scanned.partial, open)
  }

  predicate Exits(d: Daemon) { !d.open && d.net.probes == [] }

  /** The loop over a sequence of turns, until it exits. */
  function Run(config: Config, d: Daemon, turns: seq<Turn>): Daemon
    decreases |turns|
  {
    if turns == [] then d
    else
      var after := OneTurn(config, d, turns[0]);
      if Exits(after) then after else Run(config, after, turns[1..])
  }
}
